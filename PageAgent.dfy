/**
 * The content script's state in one page (content.js): the injection guard,
 * the floating button and its visibility flag, the notification element,
 * and what the message listener, the keyboard shortcuts, the unload handler
 * and the notification timers do to them. `document.cookie`, the page's
 * hostname and the clipboard's behaviour are inputs.
 */
module PageAgent {
  import opened Browser

  datatype Kind = Info | Success | Failure

  /** A notification element; `fading` once its first timer has fired. */
  datatype Notice = Notice(id: nat, message: string, kind: Kind, fading: bool)

  const NoCookiesText: string := "当前页面没有Cookie"
  const CopiedText: string := "Cookie已复制到剪贴板！"
  const ManualCopyText: string := "复制失败，请手动复制"
  const CopyErrorPrefix: string := "复制失败："
  const ButtonHiddenText: string := "浮动按钮已隐藏"
  const ButtonShownText: string := "浮动按钮已显示"
  const UnknownActionText: string := "未知的操作"

  /** The reply `sendResponse` is given. */
  datatype Reply =
    | PageCookies(cookies: string, domain: string)
    | Done
    | Unknown(error: string)
  {
    predicate Success() {
      !Unknown?
    }
  }

  /**
   * The notification `copyCurrentPageCookies` ends with: nothing to copy,
   * the asynchronous clipboard, then the copy-command fallback.
   */
  function CopyNotice(documentCookie: string, clip: Clipboard): (r: (string, Kind))
    ensures r.1 == Success <==> documentCookie != "" && (clip.writeText || clip.fallback == CommandSucceeded)
    ensures r.1 == Info <==> documentCookie == ""
  {
    if documentCookie == "" then (NoCookiesText, Info)
    else if clip.writeText then (CopiedText, Success)
    else match clip.fallback
      case CommandSucceeded => (CopiedText, Success)
      case CommandRefused => (ManualCopyText, Failure)
      case Throws(message) => (CopyErrorPrefix + message, Failure)
  }

  /** The text that reaches the clipboard, if any. */
  function Copied(documentCookie: string, clip: Clipboard): (r: Option<string>)
    ensures r.Some? <==> CopyNotice(documentCookie, clip).1 == Success
    ensures r.Some? ==> r.value == documentCookie
  {
    if documentCookie != "" && (clip.writeText || clip.fallback == CommandSucceeded) then Some(documentCookie)
    else None
  }

  class Page {
    /** `window.cookieCopierInjected`, and whether the listeners are installed. */
    var injected: bool
    /** The `floatingButton` variable is set, and the number of floating buttons in the document. */
    var floatingButton: bool
    var buttonsInPage: nat
    var isFloatingButtonVisible: bool
    /** The notification elements in the document, and the next element's identity. */
    var notices: seq<Notice>
    var nextNotice: nat

    /**
     * At most one floating button and one notification; a button only while
     * the flag is set; neither before the script has run.
     */
    predicate Valid()
      reads this
    {
      && buttonsInPage == (if floatingButton then 1 else 0)
      && |notices| <= 1
      && (floatingButton ==> isFloatingButtonVisible)
      && (forall i :: 0 <= i < |notices| ==> notices[i].id < nextNotice)
      && (!injected ==> !floatingButton && notices == [])
    }

    /** The button is on the page exactly when the flag says so. */
    predicate Synced()
      reads this
    {
      floatingButton == isFloatingButtonVisible
    }

    /** A page before the content script has run. */
    constructor ()
      ensures Valid() && Synced()
      ensures !injected && !floatingButton && buttonsInPage == 0 && !isFloatingButtonVisible
      ensures notices == [] && nextNotice == 0
    {
      injected, floatingButton, buttonsInPage, isFloatingButtonVisible := false, false, 0, false;
      notices, nextNotice := [], 0;
    }

    /** Running the script: only the first run in a page installs the listeners. */
    method RunScript()
      requires Valid()
      modifies this`injected
      ensures Valid() && injected
    {
      if !injected {
        injected := true;
      }
    }

    /** `createFloatingButton`: does nothing while a button exists. */
    method CreateFloatingButton()
      requires Valid()
      modifies this`floatingButton, this`buttonsInPage
      ensures floatingButton && buttonsInPage == 1
      ensures old(floatingButton) ==> buttonsInPage == old(buttonsInPage)
    {
      if floatingButton {
        return;
      }
      floatingButton := true;
      buttonsInPage := buttonsInPage + 1;
    }

    /** `removeFloatingButton`: takes the button out of the page if there is one. */
    method RemoveFloatingButton()
      requires Valid()
      modifies this`floatingButton, this`buttonsInPage
      ensures !floatingButton && buttonsInPage == 0
    {
      if floatingButton {
        buttonsInPage := buttonsInPage - 1;
        floatingButton := false;
      }
    }

    /** The `showFloatingButton` action. */
    method ShowButton()
      requires Valid() && injected
      modifies this`floatingButton, this`buttonsInPage, this`isFloatingButtonVisible
      ensures Valid() && isFloatingButtonVisible
      ensures old(isFloatingButtonVisible) ==> floatingButton == old(floatingButton)
      ensures !old(isFloatingButtonVisible) ==> floatingButton && Synced()
    {
      if !isFloatingButtonVisible {
        CreateFloatingButton();
        isFloatingButtonVisible := true;
      }
    }

    /** The `hideFloatingButton` action. */
    method HideButton()
      requires Valid()
      modifies this`floatingButton, this`buttonsInPage, this`isFloatingButtonVisible
      ensures Valid() && !isFloatingButtonVisible
      ensures old(isFloatingButtonVisible) ==> !floatingButton
      ensures !old(isFloatingButtonVisible) ==> floatingButton == old(floatingButton)
      ensures Synced()
    {
      if isFloatingButtonVisible {
        RemoveFloatingButton();
        isFloatingButtonVisible := false;
      }
    }

    /** `showNotification`: the existing notification is replaced by the new one. */
    method ShowNotification(message: string, kind: Kind)
      requires Valid() && injected
      modifies this`notices, this`nextNotice
      ensures Valid()
      ensures notices == [Notice(old(nextNotice), message, kind, false)]
      ensures nextNotice == old(nextNotice) + 1
    {
      if |notices| > 0 {
        notices := notices[1..];
      }
      notices := notices + [Notice(nextNotice, message, kind, false)];
      nextNotice := nextNotice + 1;
    }

    /** The three-second timer of notification `id`: it starts to fade if still on the page. */
    method FadeTimer(id: nat)
      requires Valid()
      modifies this`notices
      ensures Valid()
      ensures notices == if |old(notices)| == 1 && old(notices)[0].id == id
        then [old(notices)[0].(fading := true)] else old(notices)
    {
      if |notices| == 1 && notices[0].id == id {
        notices := [notices[0].(fading := true)];
      }
    }

    /** The timer 300 ms after the fade: notification `id` leaves the page if still there. */
    method RemoveTimer(id: nat)
      requires Valid()
      modifies this`notices
      ensures Valid()
      ensures notices == if |old(notices)| == 1 && old(notices)[0].id == id then [] else old(notices)
    {
      if |notices| == 1 && notices[0].id == id {
        notices := [];
      }
    }

    /**
     * `copyCurrentPageCookies`: an info notice when the page has no cookies,
     * otherwise the asynchronous clipboard and then the copy-command fallback.
     * Returns the text that reached the clipboard.
     */
    method CopyPageCookies(documentCookie: string, clip: Clipboard) returns (copied: Option<string>)
      requires Valid() && injected
      modifies this`notices, this`nextNotice
      ensures Valid()
      ensures copied == Copied(documentCookie, clip)
      ensures var n := CopyNotice(documentCookie, clip);
        notices == [Notice(old(nextNotice), n.0, n.1, false)] && nextNotice == old(nextNotice) + 1
    {
      if documentCookie == "" {
        ShowNotification(NoCookiesText, Info);
        return None;
      }
      if clip.writeText {
        ShowNotification(CopiedText, Success);
        return Some(documentCookie);
      }
      match clip.fallback {
        case CommandSucceeded =>
          ShowNotification(CopiedText, Success);
          copied := Some(documentCookie);
        case CommandRefused =>
          ShowNotification(ManualCopyText, Failure);
          copied := None;
        case Throws(message) =>
          ShowNotification(CopyErrorPrefix + message, Failure);
          copied := None;
      }
    }

    /**
     * The message listener: none before the script has run; `getCookies`
     * answers the page's cookie string and hostname; the button actions and
     * the copy answer success; anything else answers an error.
     */
    method Dispatch(action: string, documentCookie: string, hostname: string, clip: Clipboard)
      returns (reply: Option<Reply>, copied: Option<string>)
      requires Valid()
      modifies this`floatingButton, this`buttonsInPage, this`isFloatingButtonVisible
      modifies this`notices, this`nextNotice
      ensures Valid()
      ensures !injected ==> reply == None && copied == None
      ensures injected && action == "getCookies" ==> reply == Some(PageCookies(documentCookie, hostname))
      ensures injected && action in {"showFloatingButton", "hideFloatingButton", "copyPageCookies"} ==>
        reply == Some(Done)
      ensures injected && action !in {"getCookies", "showFloatingButton", "hideFloatingButton", "copyPageCookies"} ==>
        reply == Some(Unknown(UnknownActionText))
      ensures injected && action == "showFloatingButton" ==> isFloatingButtonVisible
      ensures injected && action == "hideFloatingButton" ==> !isFloatingButtonVisible && !floatingButton
      ensures injected && action == "showFloatingButton" ==>
        && (old(isFloatingButtonVisible) ==> floatingButton == old(floatingButton))
        && (!old(isFloatingButtonVisible) ==> floatingButton && buttonsInPage == 1)
      ensures copied == if injected && action == "copyPageCookies" then Copied(documentCookie, clip) else None
      ensures injected && action == "copyPageCookies" ==>
        var n := CopyNotice(documentCookie, clip);
        notices == [Notice(old(nextNotice), n.0, n.1, false)] && nextNotice == old(nextNotice) + 1
      ensures !(injected && action == "copyPageCookies") ==> notices == old(notices) && nextNotice == old(nextNotice)
      ensures !(injected && action in {"showFloatingButton", "hideFloatingButton"}) ==>
        floatingButton == old(floatingButton) && isFloatingButtonVisible == old(isFloatingButtonVisible)
    {
      copied := None;
      if !injected {
        return None, None;
      }
      if action == "getCookies" {
        reply := Some(PageCookies(documentCookie, hostname));
      } else if action == "showFloatingButton" {
        ShowButton();
        reply := Some(Done);
      } else if action == "hideFloatingButton" {
        HideButton();
        reply := Some(Done);
      } else if action == "copyPageCookies" {
        copied := CopyPageCookies(documentCookie, clip);
        reply := Some(Done);
      } else {
        reply := Some(Unknown(UnknownActionText));
      }
    }

    /**
     * The keydown listener: Ctrl+Shift+C copies the page's cookies;
     * Ctrl+Shift+F toggles the floating button and says which way it went.
     * Returns whether the default action was prevented.
     */
    method KeyDown(ctrl: bool, shift: bool, code: string, documentCookie: string, clip: Clipboard)
      returns (prevented: bool, copied: Option<string>)
      requires Valid()
      modifies this`floatingButton, this`buttonsInPage, this`isFloatingButtonVisible
      modifies this`notices, this`nextNotice
      ensures Valid()
      ensures prevented <==> injected && ctrl && shift && (code == "KeyC" || code == "KeyF")
      ensures copied == if injected && ctrl && shift && code == "KeyC" then Copied(documentCookie, clip) else None
      ensures injected && ctrl && shift && code == "KeyF" ==>
        && isFloatingButtonVisible == !old(isFloatingButtonVisible)
        && (old(isFloatingButtonVisible) ==> !floatingButton)
        && (!old(isFloatingButtonVisible) ==> floatingButton)
        && notices == [Notice(old(nextNotice), if old(isFloatingButtonVisible) then ButtonHiddenText else ButtonShownText, Info, false)]
      ensures injected && ctrl && shift && code == "KeyC" ==>
        var n := CopyNotice(documentCookie, clip);
        notices == [Notice(old(nextNotice), n.0, n.1, false)]
      ensures prevented ==> nextNotice == old(nextNotice) + 1
      ensures !prevented ==> notices == old(notices) && nextNotice == old(nextNotice)
      ensures !(injected && ctrl && shift && code == "KeyF") ==>
        floatingButton == old(floatingButton) && isFloatingButtonVisible == old(isFloatingButtonVisible)
    {
      prevented, copied := false, None;
      if !injected {
        return;
      }
      if ctrl && shift && code == "KeyC" {
        prevented := true;
        copied := CopyPageCookies(documentCookie, clip);
      }
      if ctrl && shift && code == "KeyF" {
        prevented := true;
        if isFloatingButtonVisible {
          RemoveFloatingButton();
          isFloatingButtonVisible := false;
          ShowNotification(ButtonHiddenText, Info);
        } else {
          CreateFloatingButton();
          isFloatingButtonVisible := true;
          ShowNotification(ButtonShownText, Info);
        }
      }
    }

    /** A click on the floating button copies the page's cookies. */
    method ClickButton(documentCookie: string, clip: Clipboard) returns (copied: Option<string>)
      requires Valid() && floatingButton
      modifies this`notices, this`nextNotice
      ensures Valid()
      ensures copied == Copied(documentCookie, clip)
      ensures var n := CopyNotice(documentCookie, clip);
        notices == [Notice(old(nextNotice), n.0, n.1, false)] && nextNotice == old(nextNotice) + 1
    {
      copied := CopyPageCookies(documentCookie, clip);
    }

    /** `beforeunload`: the button leaves the page but the flag is not cleared. */
    method Unload()
      requires Valid()
      modifies this`floatingButton, this`buttonsInPage
      ensures Valid() && !floatingButton
      ensures isFloatingButtonVisible == old(isFloatingButtonVisible)
    {
      if injected {
        RemoveFloatingButton();
      }
    }
  }

  /**
   * Two Ctrl+Shift+F presses after the script was injected bring the button back to
   * where it was, with the second press's notice on the page.
   */
  method ToggleTwice(page: Page, clip: Clipboard)
    requires page.Valid() && page.injected && page.Synced()
    modifies page
    ensures page.Valid() && page.Synced()
    ensures page.isFloatingButtonVisible == old(page.isFloatingButtonVisible)
    ensures page.floatingButton == old(page.floatingButton)
    ensures |page.notices| == 1 && page.notices[0].message ==
      if old(page.isFloatingButtonVisible) then ButtonShownText else ButtonHiddenText
  {
    var _, _ := page.KeyDown(true, true, "KeyF", "", clip);
    var _, _ := page.KeyDown(true, true, "KeyF", "", clip);
  }

  /**
   * After the unload handler the flag is still set but the button is gone:
   * the first Ctrl+Shift+F press only clears the flag and says the button is
   * hidden, the second brings the button back, so the page ends synced with
   * one button and the "shown" notice.
   */
  method ToggleTwiceAfterUnload(page: Page, clip: Clipboard)
    requires page.Valid() && page.injected && page.isFloatingButtonVisible
    modifies page
    ensures page.Valid() && page.Synced()
    ensures page.isFloatingButtonVisible && page.floatingButton && page.buttonsInPage == 1
    ensures |page.notices| == 1 && page.notices[0].message == ButtonShownText
    ensures page.nextNotice == old(page.nextNotice) + 2
  {
    page.Unload();
    var _, _ := page.KeyDown(true, true, "KeyF", "", clip);
    var _, _ := page.KeyDown(true, true, "KeyF", "", clip);
  }

  /**
   * The unload handler leaves the visibility flag set, so a later
   * `showFloatingButton` on the same page (a navigation the user cancelled)
   * finds the flag up and does not bring the button back.
   */
  method ShowAfterUnload(page: Page)
    requires page.Valid() && page.injected && page.isFloatingButtonVisible
    modifies page
    ensures page.Valid() && !page.Synced()
    ensures page.isFloatingButtonVisible && !page.floatingButton && page.buttonsInPage == 0
  {
    page.Unload();
    page.ShowButton();
  }
}
