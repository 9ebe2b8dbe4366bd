/**
 * The popup's pure rules (popup.js): the two clipboard formats, the URL a
 * cookie is removed by, the clipboard helper's outcome, and the values the
 * set-cookie form sends to the store (trimming, defaults, expiry, the
 * SameSite=None rule).
 */
module PanelRules {
  import opened Text
  import opened Browser

  // ---------------------------------------------------------------------------
  // Clipboard formats
  // ---------------------------------------------------------------------------

  /** One cookie as `name=value`. */
  function Pair(c: Cookie): string {
    c.name + "=" + c.value
  }

  function Pairs(cs: seq<Cookie>): seq<string> {
    seq(|cs|, i requires 0 <= i < |cs| => Pair(cs[i]))
  }

  /** `formatCookiesAsString`: the `name=value` items joined by `"; "`. */
  function FormatCookiesAsString(cs: seq<Cookie>): string {
    Join(Pairs(cs), "; ")
  }

  /** Neither the name nor the value of any cookie contains `c`. */
  predicate FieldsFree(cs: seq<Cookie>, c: char) {
    forall i :: 0 <= i < |cs| ==> c !in cs[i].name && c !in cs[i].value
  }

  /** The simple format is empty exactly for an empty list. */
  lemma FormatEmptyIff(cs: seq<Cookie>)
    ensures FormatCookiesAsString(cs) == "" <==> cs == []
  {
    if cs != [] {
      JoinLength(Pairs(cs), "; ");
      assert |Pairs(cs)[0]| > 0;
    }
  }

  /**
   * The simple format lists the `name=value` items in order with exactly
   * `|cs| - 1` separators: read back on `;`, it gives each item, every one
   * after the first behind the separator's space.
   */
  lemma FormatSimpleItems(cs: seq<Cookie>)
    requires |cs| > 0 && FieldsFree(cs, ';')
    ensures Split(FormatCookiesAsString(cs), ';') == Spaced(Pairs(cs))
    ensures |Split(FormatCookiesAsString(cs), ';')| == |cs|
  {
    JoinWithSpace(Pairs(cs), ';');
    assert "; " == [';', ' '];
    var sp := Spaced(Pairs(cs));
    forall i | 0 <= i < |sp| ensures ';' !in sp[i] {
      assert sp[i] == (if i == 0 then "" else " ") + cs[i].name + "=" + cs[i].value;
    }
    SplitJoin(sp, ';');
  }

  /** The sentinel for a cookie without an expiry date. */
  const SessionCookie: string := "会话Cookie"
  /** The sentinel for a cookie without a SameSite tag. */
  const SameSiteUnset: string := "未设置"

  /** The rule between two records: 50 `=`. */
  function Rule(): (r: string)
    ensures |r| == 50 && forall i :: 0 <= i < 50 ==> r[i] == '='
  {
    seq(50, _ => '=')
  }

  /** What separates two detailed records. */
  function RecordSeparator(): string {
    "\n\n" + Rule() + "\n\n"
  }

  function YesNo(b: bool): string {
    if b then "是" else "否"
  }

  /** The expiry line's text: the locale date, or the session sentinel when the date is absent or 0. */
  function ExpiryText(c: Cookie, localeDate: int -> string): string {
    if c.expirationDate.Some? && c.expirationDate.value != 0
    then localeDate(c.expirationDate.value * 1000) else SessionCookie
  }

  /** The eight lines of one detailed record. */
  function RecordLines(c: Cookie, localeDate: int -> string): seq<string> {
    [ "名称: " + c.name,
      "值: " + c.value,
      "域名: " + c.domain,
      "路径: " + c.path,
      "过期时间: " + ExpiryText(c, localeDate),
      "安全: " + YesNo(c.secure),
      "HttpOnly: " + YesNo(c.httpOnly),
      "SameSite: " + (if c.sameSite == "" then SameSiteUnset else c.sameSite) ]
  }

  /** One record: its lines joined by newlines. */
  function Record(c: Cookie, localeDate: int -> string): string {
    Join(RecordLines(c, localeDate), "\n")
  }

  /** `cookies.map(...)`: one record per cookie, in order. */
  function Records(cs: seq<Cookie>, localeDate: int -> string): (r: seq<string>)
    ensures |r| == |cs|
  {
    if |cs| == 0 then [] else [Record(cs[0], localeDate)] + Records(cs[1..], localeDate)
  }

  /** `formatCookiesDetailed`: the records joined by the rule separator. */
  function FormatCookiesDetailed(cs: seq<Cookie>, localeDate: int -> string): string {
    Join(Records(cs, localeDate), RecordSeparator())
  }

  /** The line structure of the detailed text: records, with an empty line, the rule and an empty line between. */
  function DetailedLayout(cs: seq<Cookie>, localeDate: int -> string): seq<string>
    requires |cs| > 0
  {
    if |cs| == 1 then RecordLines(cs[0], localeDate)
    else RecordLines(cs[0], localeDate) + ["", Rule(), ""] + DetailedLayout(cs[1..], localeDate)
  }

  /** No field of a record holds a line break. */
  predicate SingleLine(c: Cookie, localeDate: int -> string) {
    forall l :: l in RecordLines(c, localeDate) ==> '\n' !in l
  }

  /** A rule line between two empty lines, joined by newlines. */
  lemma JoinRuleLines(rule: string)
    ensures Join(["", rule, ""], "\n") == "\n" + rule + "\n"
  {
    var mid := ["", rule, ""];
    assert mid[1..] == [rule, ""];
    assert [rule, ""][1..] == [""];
    assert Join([rule, ""], "\n") == rule + "\n" + "";
    assert rule + "\n" + "" == rule + "\n";
    assert Join(mid, "\n") == "" + "\n" + (rule + "\n");
  }

  lemma Regroup(a: string, b: string, c: string, d: string, e: string)
    ensures a + b + c + d + e == a + (b + c + d) + e
  {
    assert a + b + c == a + (b + c);
    assert a + (b + c) + d == a + (b + c + d);
  }

  /** Newline-joined lines around a rule line give the rule with blank lines around it. */
  lemma JoinAroundRule(head: seq<string>, rule: string, tail: seq<string>)
    requires |head| > 0 && |tail| > 0
    ensures Join(head + ["", rule, ""] + tail, "\n")
         == Join(head, "\n") + ("\n\n" + rule + "\n\n") + Join(tail, "\n")
  {
    var mid := ["", rule, ""];
    var nl := "\n";
    var jh, jt := Join(head, nl), Join(tail, nl);
    JoinAppend(head + mid, tail, nl);
    JoinAppend(head, mid, nl);
    JoinRuleLines(rule);
    var r := nl + rule + nl;
    assert Join(head + mid + tail, nl) == jh + nl + r + nl + jt;
    assert "\n\n" + rule + "\n\n" == nl + r + nl;
    Regroup(jh, nl, r, nl, jt);
  }

  /** The detailed text is its layout joined by newlines. */
  lemma {:induction false} DetailedIsLayout(cs: seq<Cookie>, localeDate: int -> string)
    requires |cs| > 0
    ensures FormatCookiesDetailed(cs, localeDate) == Join(DetailedLayout(cs, localeDate), "\n")
  {
    var recs := Records(cs, localeDate);
    if |cs| > 1 {
      DetailedIsLayout(cs[1..], localeDate);
      assert recs[1..] == Records(cs[1..], localeDate);
      assert FormatCookiesDetailed(cs, localeDate)
          == Record(cs[0], localeDate) + RecordSeparator() + FormatCookiesDetailed(cs[1..], localeDate);
      JoinAroundRule(RecordLines(cs[0], localeDate), Rule(), DetailedLayout(cs[1..], localeDate));
    }
  }

  /**
   * Read back line by line, the detailed text of cookies whose fields hold no
   * line break is exactly the layout: each record's eight lines in the fixed
   * order, the sentinels where the expiry or SameSite is missing, and
   * `"", 50×"=", ""` between records.
   */
  lemma DetailedLines(cs: seq<Cookie>, localeDate: int -> string)
    requires |cs| > 0
    requires forall i :: 0 <= i < |cs| ==> SingleLine(cs[i], localeDate)
    ensures Split(FormatCookiesDetailed(cs, localeDate), '\n') == DetailedLayout(cs, localeDate)
  {
    DetailedIsLayout(cs, localeDate);
    LayoutSingleLine(cs, localeDate);
    assert "\n" == ['\n'];
    SplitJoin(DetailedLayout(cs, localeDate), '\n');
  }

  lemma {:induction false} LayoutSingleLine(cs: seq<Cookie>, localeDate: int -> string)
    requires |cs| > 0
    requires forall i :: 0 <= i < |cs| ==> SingleLine(cs[i], localeDate)
    ensures forall j :: 0 <= j < |DetailedLayout(cs, localeDate)| ==> '\n' !in DetailedLayout(cs, localeDate)[j]
  {
    assert SingleLine(cs[0], localeDate);
    if |cs| > 1 {
      LayoutSingleLine(cs[1..], localeDate);
      var l := DetailedLayout(cs, localeDate);
      var head := RecordLines(cs[0], localeDate) + ["", Rule(), ""];
      forall j | 0 <= j < |l| ensures '\n' !in l[j] {
        if j < |head| {
          assert l[j] == head[j];
          if j < 8 { assert l[j] in RecordLines(cs[0], localeDate); }
        } else {
          assert l[j] == DetailedLayout(cs[1..], localeDate)[j - |head|];
        }
      }
    }
  }

  /** A record's lines: eight, labelled in order, with the two sentinels. */
  lemma RecordShape(c: Cookie, localeDate: int -> string)
    ensures var ls := RecordLines(c, localeDate);
      && |ls| == 8
      && (c.expirationDate.None? || c.expirationDate == Some(0) ==> ls[4] == "过期时间: " + SessionCookie)
      && (c.expirationDate.Some? && c.expirationDate.value != 0 ==>
            ls[4] == "过期时间: " + localeDate(c.expirationDate.value * 1000))
      && (c.sameSite == "" ==> ls[7] == "SameSite: " + SameSiteUnset)
      && (c.sameSite != "" ==> ls[7] == "SameSite: " + c.sameSite)
  {
  }

  // ---------------------------------------------------------------------------
  // Removal URL
  // ---------------------------------------------------------------------------

  function Scheme(secure: bool): string {
    if secure then "https://" else "http://"
  }

  /** `domain.startsWith('.') ? domain.substring(1) : domain`. */
  function StripLeadingDot(d: string): (r: string)
    ensures r == d || (|d| > 0 && d[0] == '.' && r == d[1..])
  {
    if |d| > 0 && d[0] == '.' then d[1..] else d
  }

  /** The URL the clear-all loop removes a cookie by. */
  function RemovalUrl(c: Cookie): string {
    Scheme(c.secure) + StripLeadingDot(c.domain) + c.path
  }

  /** The call the clear-all loop issues for one cookie. */
  function RemovalOf(c: Cookie): RemoveRequest {
    RemoveRequest(RemovalUrl(c), c.name)
  }

  /** The removal URL starts with `https://` exactly for a secure cookie and with `http://` otherwise. */
  lemma RemovalScheme(c: Cookie)
    ensures "https://" <= RemovalUrl(c) <==> c.secure
    ensures "http://" <= RemovalUrl(c) <==> !c.secure
  {
    var u := RemovalUrl(c);
    if c.secure { assert u[4] == 's'; } else { assert u[4] == ':'; }
  }

  /**
   * A domain cookie (`.example.com`) and a host cookie (`example.com`) are
   * removed through the same URL, and only one dot is taken off.
   */
  lemma RemovalUrlDot(c: Cookie, d: string)
    ensures RemovalUrl(c.(domain := "." + d)) == RemovalUrl(c.(domain := d)) || (|d| > 0 && d[0] == '.')
    ensures RemovalUrl(c.(domain := "." + d)) == Scheme(c.secure) + d + c.path
  {
    assert ("." + d)[1..] == d;
  }

  // ---------------------------------------------------------------------------
  // Clipboard helper
  // ---------------------------------------------------------------------------

  /**
   * `copyToClipboard` as written: true when `writeText` resolves; after a
   * rejection the textarea fallback runs and the helper answers true unless
   * something in it throws, whatever `execCommand('copy')` returned.
   */
  function CopyToClipboardAsWritten(clip: Clipboard): (ok: bool)
    ensures !ok <==> !clip.writeText && clip.fallback.Throws?
    ensures CopyToClipboard(clip) ==> ok
  {
    clip.writeText || !clip.fallback.Throws?
  }

  /** The helper as intended: the fallback counts only when the copy command reports success. */
  function CopyToClipboard(clip: Clipboard): (ok: bool)
    ensures ok <==> clip.writeText || clip.fallback == CommandSucceeded
  {
    clip.writeText || clip.fallback.CommandSucceeded?
  }

  /** The helper as written reports a copy that the copy command refused. */
  lemma RefusedCopyReportedAsWritten()
    ensures CopyToClipboardAsWritten(Clipboard(false, CommandRefused))
    ensures !CopyToClipboard(Clipboard(false, CommandRefused))
  {
  }

  /** Both agree except when the copy command refuses without throwing. */
  lemma CopyHelpersAgree(clip: Clipboard)
    ensures CopyToClipboardAsWritten(clip) != CopyToClipboard(clip) <==> !clip.writeText && clip.fallback == CommandRefused
  {
  }

  // ---------------------------------------------------------------------------
  // Set-cookie form
  // ---------------------------------------------------------------------------

  /** The raw values of the form's fields. */
  datatype CookieForm = CookieForm(
    name: string,
    value: string,
    path: string,
    expiry: string,
    secure: bool,
    httpOnly: bool,
    sameSite: string)

  /** The form as `clearCookieForm` leaves it. */
  const BlankForm := CookieForm("", "", "/", "30", false, false, "lax")

  datatype FormError = NameRequired | ValueRequired

  /** The form's checks, in order: a trimmed name first, then a trimmed value. */
  function CheckForm(f: CookieForm): (e: Option<FormError>)
    ensures e == Some(NameRequired) <==> Trim(f.name) == ""
    ensures e == Some(ValueRequired) <==> Trim(f.name) != "" && Trim(f.value) == ""
    ensures e == None <==> Trim(f.name) != "" && Trim(f.value) != ""
  {
    if Trim(f.name) == "" then Some(NameRequired)
    else if Trim(f.value) == "" then Some(ValueRequired)
    else None
  }

  /** The number of leading digits of `s` in the radix. */
  function DigitRun(s: string, radix: nat): (k: nat)
    ensures k <= |s|
    ensures forall i :: 0 <= i < k ==> IsDigit(s[i], radix)
    ensures k < |s| ==> !IsDigit(s[k], radix)
  {
    if |s| > 0 && IsDigit(s[0], radix) then 1 + DigitRun(s[1..], radix) else 0
  }

  /** The magnitude `parseInt` reads after the sign: hexadecimal behind `0x`, decimal otherwise. */
  function UnsignedPrefix(s: string): (r: Option<int>)
    ensures r.Some? ==> r.value >= 0
  {
    if |s| >= 2 && s[0] == '0' && (s[1] == 'x' || s[1] == 'X') then
      var k := DigitRun(s[2..], 16);
      if k == 0 then None else Some(DigitsValue(s[2..][..k], 16))
    else
      var k := DigitRun(s, 10);
      if k == 0 then None else Some(DigitsValue(s[..k], 10))
  }

  /**
   * `parseInt(s)` without a radix: leading white space skipped, one optional
   * sign, then the longest digit prefix; None stands for `NaN`.
   */
  function ParseInt(s: string): Option<int> {
    var t := TrimStart(s);
    if |t| > 0 && t[0] == '-' then
      match UnsignedPrefix(t[1..]) case None => None case Some(n) => Some(-n)
    else if |t| > 0 && t[0] == '+' then UnsignedPrefix(t[1..])
    else UnsignedPrefix(t)
  }

  /** The decimal text of a number, as a number input holds it. */
  function Decimal(n: nat): (r: string)
    ensures |r| > 0 && forall i :: 0 <= i < |r| ==> '0' <= r[i] <= '9'
  {
    var d := ['0' + ((n % 10) as char)];
    if n < 10 then d else Decimal(n / 10) + d
  }

  lemma {:induction false} DecimalValue(n: nat)
    ensures DigitsValue(Decimal(n), 10) == n
  {
    var r := Decimal(n);
    assert r[..|r| - 1] == (if n < 10 then "" else Decimal(n / 10));
    if n >= 10 { DecimalValue(n / 10); }
  }

  /** A string of decimal digits is read whole, in base ten. */
  lemma UnsignedDigits(r: string)
    requires |r| > 0 && forall i :: 0 <= i < |r| ==> '0' <= r[i] <= '9'
    ensures UnsignedPrefix(r) == Some(DigitsValue(r, 10))
  {
    DecimalRun(r);
    assert r[..|r|] == r;
    if |r| >= 2 { assert r[1] != 'x' && r[1] != 'X'; }
  }

  /** Text that opens with a character other than white space and a sign is read as it stands. */
  lemma ParseIntPlain(t: string)
    requires |t| > 0 && !IsSpace(t[0]) && t[0] != '-' && t[0] != '+'
    ensures ParseInt(t) == UnsignedPrefix(t)
  {
    assert TrimStart(t) == t;
  }

  /** Text behind a minus sign is read negated. */
  lemma ParseIntMinus(u: string)
    ensures ParseInt("-" + u) == match UnsignedPrefix(u) case None => None case Some(n) => Some(-n)
  {
    var t := "-" + u;
    assert t[0] == '-' && !IsSpace(t[0]);
    assert TrimStart(t) == t;
    assert t[1..] == u;
  }

  /** `parseInt` reads back the decimal text of any number. */
  lemma ParseIntDecimal(n: nat)
    ensures ParseInt(Decimal(n)) == Some(n)
  {
    DecimalValue(n);
    ParseDigits(Decimal(n));
  }

  /** A digit string is read whole, in base ten. */
  lemma ParseDigits(r: string)
    requires |r| > 0 && forall i :: 0 <= i < |r| ==> '0' <= r[i] <= '9'
    ensures ParseInt(r) == Some(DigitsValue(r, 10))
  {
    UnsignedDigits(r);
    ParseIntPlain(r);
  }

  lemma {:induction false} DecimalRun(r: string)
    requires forall i :: 0 <= i < |r| ==> '0' <= r[i] <= '9'
    ensures DigitRun(r, 10) == |r|
  {
    if |r| > 0 { DecimalRun(r[1..]); }
  }

  /** `parseInt(expiry) || 30`: NaN and 0 both fall back to 30 days. */
  function ExpiryDays(expiry: string): (days: int)
    ensures days != 0
    ensures ParseInt(expiry).None? || ParseInt(expiry) == Some(0) ==> days == 30
    ensures ParseInt(expiry).Some? && ParseInt(expiry).value != 0 ==> days == ParseInt(expiry).value
  {
    match ParseInt(expiry)
    case None => 30
    case Some(n) => if n == 0 then 30 else n
  }

  /** `Math.floor(Date.now() / 1000) + days * 24 * 60 * 60`, from the clock in milliseconds. */
  function ExpirationDate(nowMs: int, days: int): (e: int)
    ensures (e - days * 86400) * 1000 <= nowMs < (e - days * 86400 + 1) * 1000
  {
    nowMs / 1000 + days * 24 * 60 * 60
  }

  /** The `sameSite` value that obliges a secure cookie. */
  const NoRestriction: string := "no_restriction"

  /** What `chrome.cookies.set` is given for a form that passed `CheckForm`. */
  function SetRequestOf(f: CookieForm, url: string, nowMs: int): (r: SetRequest)
    ensures r.url == url && r.name == Trim(f.name) && r.value == Trim(f.value)
    ensures r.path == if Trim(f.path) == "" then "/" else Trim(f.path)
    ensures r.sameSite == f.sameSite && r.httpOnly == f.httpOnly
    ensures r.sameSite == NoRestriction ==> r.secure
    ensures r.sameSite != NoRestriction ==> r.secure == f.secure
    ensures r.expirationDate == ExpirationDate(nowMs, ExpiryDays(f.expiry))
  {
    var path := if Trim(f.path) == "" then "/" else Trim(f.path);
    var finalSecure := if f.sameSite == NoRestriction then true else f.secure;
    SetRequest(url, Trim(f.name), Trim(f.value), path, finalSecure, f.httpOnly, f.sameSite,
               ExpirationDate(nowMs, ExpiryDays(f.expiry)))
  }

  /** The form's default expiry text reads as 30 days. */
  lemma DefaultExpiry()
    ensures ExpiryDays(BlankForm.expiry) == 30
  {
    assert Decimal(3) == "3";
    assert Decimal(30) == "30";
    ParseIntDecimal(30);
  }

  /** The form's default path is kept as it is. */
  lemma DefaultPath()
    ensures Trim(BlankForm.path) == "/"
  {
    assert !IsSpace('/');
    TrimUnpadded("/");
  }

  /** A cleared form, whatever name and value are then typed in, sends path `/` and SameSite `lax`, not secure. */
  lemma BlankFormDefaults(name: string, value: string, url: string, nowMs: int)
    ensures var r := SetRequestOf(BlankForm.(name := name, value := value), url, nowMs);
      r.path == "/" && r.sameSite == "lax" && !r.secure
  {
    DefaultPath();
  }

  /** A cleared form sends a cookie that expires 30 days from now. */
  lemma BlankFormExpiry(name: string, value: string, url: string, nowMs: int)
    ensures SetRequestOf(BlankForm.(name := name, value := value), url, nowMs).expirationDate
         == ExpirationDate(nowMs, 30)
  {
    DefaultExpiry();
    assert BlankForm.(name := name, value := value).expiry == BlankForm.expiry;
  }
}
