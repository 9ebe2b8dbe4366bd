/**
 * The content script's cookie-string utilities (content.js, `parseCookies`
 * and `formatCookiesObject`). The cookie object is a plain JavaScript object:
 * its own properties in creation order, where assigning to an existing name
 * keeps the property's place and assigning to `__proto__` creates nothing.
 * `Object.entries` lists array-index names ("0", "17", ...) first, in
 * ascending numeric order, and then the other names in creation order.
 */
module PageCookies {
  import opened Text
  import opened Browser

  /** An own property of the cookie object. */
  datatype Property = Property(name: string, value: string)

  function Names(obj: seq<Property>): seq<string> {
    seq(|obj|, i requires 0 <= i < |obj| => obj[i].name)
  }

  /** No two properties share a name. */
  predicate UniqueNames(obj: seq<Property>) {
    forall i, j :: 0 <= i < j < |obj| ==> obj[i].name != obj[j].name
  }

  /** Replace the value of the property named `k`, or add it at the end. */
  function Put(obj: seq<Property>, k: string, v: string): (r: seq<Property>)
    ensures Property(k, v) in r
    ensures forall p :: p in r ==> p == Property(k, v) || p in obj
  {
    if |obj| == 0 then [Property(k, v)]
    else if obj[0].name == k then [Property(k, v)] + obj[1..]
    else [obj[0]] + Put(obj[1..], k, v)
  }

  /** A new name is added at the end. */
  lemma {:induction false} PutNew(obj: seq<Property>, k: string, v: string)
    requires k !in Names(obj)
    ensures Put(obj, k, v) == obj + [Property(k, v)]
  {
    if |obj| > 0 {
      assert obj[0].name == Names(obj)[0];
      assert Names(obj[1..]) == Names(obj)[1..];
      PutNew(obj[1..], k, v);
    }
  }

  /** `cookies[k] = v`: an own data property, except that `__proto__` does not create one. */
  function Assign(obj: seq<Property>, k: string, v: string): seq<Property> {
    if k == "__proto__" then obj else Put(obj, k, v)
  }

  /** The value of the property named `k`. */
  function Lookup(obj: seq<Property>, k: string): Option<string> {
    if |obj| == 0 then None
    else if obj[0].name == k then Some(obj[0].value)
    else Lookup(obj[1..], k)
  }

  /**
   * One `;`-separated piece of the cookie string: trimmed and split at every
   * `=`, it counts only when that gives exactly two parts. The value is not
   * yet decoded.
   */
  function SegmentPair(seg: string): Option<Property> {
    var parts := Split(Trim(seg), '=');
    if |parts| == 2 then Some(Property(parts[0], parts[1])) else None
  }

  /**
   * The object built from the pieces, in order, decoding each value with
   * `decodeURIComponent` (None when it throws, which aborts the parse).
   */
  function Parsed(segs: seq<string>, decode: string -> Option<string>): Option<seq<Property>> {
    if |segs| == 0 then Some([])
    else
      match Parsed(segs[..|segs| - 1], decode)
      case None => None
      case Some(obj) =>
        match SegmentPair(segs[|segs| - 1])
        case None => Some(obj)
        case Some(p) =>
          match decode(p.value)
          case None => None
          case Some(v) => Some(Assign(obj, p.name, v))
  }

  /** What `parseCookies` returns: the empty object for the empty string. */
  function CookieObject(cookieString: string, decode: string -> Option<string>): Option<seq<Property>> {
    if cookieString == "" then Some([]) else Parsed(Split(cookieString, ';'), decode)
  }

  /** A parse that has aborted stays aborted. */
  lemma {:induction false} ParsedAborts(segs: seq<string>, k: nat, decode: string -> Option<string>)
    requires k <= |segs| && Parsed(segs[..k], decode).None?
    ensures Parsed(segs, decode).None?
  {
    if k < |segs| {
      var init := segs[..|segs| - 1];
      assert init[..k] == segs[..k];
      ParsedAborts(init, k, decode);
    } else {
      assert segs[..k] == segs;
    }
  }

  /** The parse of one more piece, given the parse of the pieces before it. */
  lemma ParsedStep(segs: seq<string>, i: nat, obj: seq<Property>, decode: string -> Option<string>)
    requires i < |segs| && Parsed(segs[..i], decode) == Some(obj)
    ensures Parsed(segs[..i + 1], decode) ==
      match SegmentPair(segs[i])
      case None => Some(obj)
      case Some(p) =>
        match decode(p.value)
        case None => None
        case Some(v) => Some(Assign(obj, p.name, v))
  {
    assert segs[..i + 1][..i] == segs[..i];
  }

  /** `parseCookies`: split on `;` and assign each well-formed piece to the object. */
  method ParseCookies(cookieString: string, decode: string -> Option<string>) returns (cookies: Option<seq<Property>>)
    ensures cookies == CookieObject(cookieString, decode)
  {
    if cookieString == "" {
      return Some([]);
    }
    var segs := Split(cookieString, ';');
    var obj: seq<Property> := [];
    var i := 0;
    while i < |segs|
      invariant 0 <= i <= |segs|
      invariant Parsed(segs[..i], decode) == Some(obj)
    {
      ParsedStep(segs, i, obj, decode);
      var parts := Split(Trim(segs[i]), '=');
      if |parts| == 2 {
        var value := decode(parts[1]);
        if value.None? {
          ParsedAborts(segs, i + 1, decode);
          return None;
        }
        obj := Assign(obj, parts[0], value.value);
      }
      i := i + 1;
    }
    assert segs[..i] == segs;
    return Some(obj);
  }

  /** The parse of no cookies at all is the empty object. */
  lemma ParseEmpty(decode: string -> Option<string>)
    ensures CookieObject("", decode) == Some([])
    ensures CookieObject(";", decode) == Some([])
  {
    assert Split(";", ';') == ["", ""] by {
      SplitAt(";", ';', 0);
      assert ";"[1..] == "";
    }
    assert Split("", '=') == [""];
    assert ["", ""][..1] == [""];
  }

  /** A piece that counts is, trimmed, its name and value around a single `=`. */
  lemma SegmentPairSound(seg: string, k: string, v: string)
    requires SegmentPair(seg) == Some(Property(k, v))
    ensures Trim(seg) == k + "=" + v && '=' !in k && '=' !in v
  {
    var parts := Split(Trim(seg), '=');
    assert parts == [k, v];
    assert Join(parts, "=") == k + "=" + Join([v], "=");
  }

  /** A trimmed name and value around a single `=` make a piece that counts. */
  lemma SegmentPairComplete(seg: string, k: string, v: string)
    requires Trim(seg) == k + "=" + v && '=' !in k && '=' !in v
    ensures SegmentPair(seg) == Some(Property(k, v))
  {
    assert Join([k, v], "=") == Trim(seg);
    SplitJoin([k, v], '=');
  }

  /** A piece counts exactly when, trimmed, it is a name and a value around a single `=`. */
  lemma SegmentPairShape(seg: string, k: string, v: string)
    ensures SegmentPair(seg) == Some(Property(k, v)) <==> (Trim(seg) == k + "=" + v && '=' !in k && '=' !in v)
  {
    if SegmentPair(seg) == Some(Property(k, v)) {
      SegmentPairSound(seg, k, v);
    }
    if Trim(seg) == k + "=" + v && '=' !in k && '=' !in v {
      SegmentPairComplete(seg, k, v);
    }
  }

  /** A parse that goes through assigns the last piece's decoded value over earlier ones. */
  lemma LaterPieceWins(segs: seq<string>, seg: string, decode: string -> Option<string>)
    requires Parsed(segs, decode).Some? && SegmentPair(seg).Some?
    requires SegmentPair(seg).value.name != "__proto__"
    requires decode(SegmentPair(seg).value.value).Some?
    ensures var r := Parsed(segs + [seg], decode);
      && r.Some?
      && Lookup(r.value, SegmentPair(seg).value.name) == decode(SegmentPair(seg).value.value)
      && (forall n :: n != SegmentPair(seg).value.name ==> Lookup(r.value, n) == Lookup(Parsed(segs, decode).value, n))
  {
    var all := segs + [seg];
    assert all[..|all| - 1] == segs;
    var p := SegmentPair(seg).value;
    var v := decode(p.value).value;
    var obj := Parsed(segs, decode).value;
    forall n ensures Lookup(Put(obj, p.name, v), n) == if n == p.name then Some(v) else Lookup(obj, n) {
      LookupPut(obj, p.name, v, n);
    }
  }

  lemma {:induction false} LookupPut(obj: seq<Property>, k: string, v: string, n: string)
    ensures Lookup(Put(obj, k, v), n) == if n == k then Some(v) else Lookup(obj, n)
  {
    if |obj| > 0 && obj[0].name != k {
      LookupPut(obj[1..], k, v, n);
    }
  }

  /** Pieces that are not a single `name=value` pair leave the object as it was. */
  lemma MalformedPieceIgnored(segs: seq<string>, seg: string, decode: string -> Option<string>)
    requires SegmentPair(seg).None?
    ensures Parsed(segs + [seg], decode) == Parsed(segs, decode)
  {
    var all := segs + [seg];
    assert all[..|all| - 1] == segs;
  }

  /** A piece whose value `decodeURIComponent` rejects. */
  predicate Undecodable(seg: string, decode: string -> Option<string>) {
    SegmentPair(seg).Some? && decode(SegmentPair(seg).value.value).None?
  }

  /** One more piece aborts the parse exactly when it was aborted or the piece does not decode. */
  lemma ParsedStepAborts(segs: seq<string>, decode: string -> Option<string>)
    requires |segs| > 0
    ensures Parsed(segs, decode).None? <==>
      Parsed(segs[..|segs| - 1], decode).None? || Undecodable(segs[|segs| - 1], decode)
  {
  }

  lemma AllDecodable(segs: seq<string>, init: seq<string>, decode: string -> Option<string>)
    requires |segs| > 0 && init == segs[..|segs| - 1] && !Undecodable(segs[|segs| - 1], decode)
    requires forall j :: 0 <= j < |init| ==> !Undecodable(init[j], decode)
    ensures forall i :: 0 <= i < |segs| ==> !Undecodable(segs[i], decode)
  {
    forall i | 0 <= i < |init| ensures !Undecodable(segs[i], decode) {
      assert init[i] == segs[i];
    }
  }

  /** A parse aborts exactly when some piece's value does not decode. */
  lemma {:induction false} ParsedAbortsIff(segs: seq<string>, decode: string -> Option<string>)
    ensures Parsed(segs, decode).None? <==> exists i :: 0 <= i < |segs| && Undecodable(segs[i], decode)
  {
    if |segs| > 0 {
      var init := segs[..|segs| - 1];
      var last := |segs| - 1;
      ParsedAbortsIff(init, decode);
      ParsedStepAborts(segs, decode);
      if Parsed(init, decode).None? {
        var i :| 0 <= i < |init| && Undecodable(init[i], decode);
        assert segs[i] == init[i];
        assert Parsed(segs, decode).None?;
      } else if Undecodable(segs[last], decode) {
        assert Parsed(segs, decode).None?;
      } else {
        AllDecodable(segs, init, decode);
      }
    }
  }

  /** Array-index names: canonical decimal numbers below 2^32 - 1. */
  predicate IsArrayIndex(k: string) {
    && |k| > 0
    && (forall i :: 0 <= i < |k| ==> IsDigit(k[i], 10))
    && (k[0] != '0' || |k| == 1)
    && DigitsValue(k, 10) < 0xFFFF_FFFF
  }

  function IndexValue(p: Property): nat {
    DigitsValue(p.name, 10)
  }

  /** Ascending by index value. */
  predicate SortedByIndex(s: seq<Property>) {
    forall i, j :: 0 <= i < j < |s| ==> IndexValue(s[i]) <= IndexValue(s[j])
  }

  function InsertByIndex(p: Property, s: seq<Property>): (r: seq<Property>)
    ensures |r| == |s| + 1
    ensures forall q :: q in r <==> q == p || q in s
    ensures SortedByIndex(s) ==> SortedByIndex(r)
  {
    if |s| == 0 || IndexValue(p) <= IndexValue(s[0]) then [p] + s
    else
      var rest := InsertByIndex(p, s[1..]);
      assert s == [s[0]] + s[1..];
      assert SortedByIndex(s) ==> SortedByIndex(s[1..]) && forall q :: q in rest ==> IndexValue(s[0]) <= IndexValue(q);
      [s[0]] + rest
  }

  /** The index properties in ascending order of their names' values. */
  function SortByIndex(s: seq<Property>): (r: seq<Property>)
    ensures |r| == |s|
    ensures forall q :: q in r <==> q in s
    ensures SortedByIndex(r)
  {
    if |s| == 0 then [] else InsertByIndex(s[0], SortByIndex(s[1..]))
  }

  /** Sorting a sorted list changes nothing. */
  lemma {:induction false} SortSorted(s: seq<Property>)
    requires SortedByIndex(s)
    ensures SortByIndex(s) == s
  {
    if |s| > 0 {
      SortSorted(s[1..]);
    }
  }

  /** The properties `keep` accepts, in their order. */
  function Select(obj: seq<Property>, keep: Property -> bool): (r: seq<Property>)
    ensures forall q :: q in r <==> q in obj && keep(q)
  {
    if |obj| == 0 then []
    else (if keep(obj[0]) then [obj[0]] else []) + Select(obj[1..], keep)
  }

  predicate HasIndexName(p: Property) {
    IsArrayIndex(p.name)
  }

  predicate HasOtherName(p: Property) {
    !IsArrayIndex(p.name)
  }

  function IndexProperties(obj: seq<Property>): (r: seq<Property>)
    ensures forall q :: q in r <==> q in obj && IsArrayIndex(q.name)
  {
    Select(obj, HasIndexName)
  }

  function NamedProperties(obj: seq<Property>): (r: seq<Property>)
    ensures forall q :: q in r <==> q in obj && !IsArrayIndex(q.name)
  {
    Select(obj, HasOtherName)
  }

  /** `Object.entries(obj)`: index names ascending, then the other names in creation order. */
  function Entries(obj: seq<Property>): (r: seq<Property>)
    ensures forall q :: q in r <==> q in obj
  {
    SortByIndex(IndexProperties(obj)) + NamedProperties(obj)
  }

  /** Index names come first, in ascending order; the other names follow. */
  lemma EntriesOrder(obj: seq<Property>)
    ensures var es := Entries(obj);
      forall i, j :: 0 <= i < j < |es| && IsArrayIndex(es[j].name) ==>
        IsArrayIndex(es[i].name) && IndexValue(es[i]) <= IndexValue(es[j])
  {
    var ix := SortByIndex(IndexProperties(obj));
    var named := NamedProperties(obj);
    var es := ix + named;
    forall i, j | 0 <= i < j < |es| && IsArrayIndex(es[j].name)
      ensures IsArrayIndex(es[i].name) && IndexValue(es[i]) <= IndexValue(es[j])
    {
      assert es[i] == ix[i] && es[j] == ix[j] && ix[i] in ix;
    }
  }

  /** One entry as `formatCookiesObject` writes it. */
  function PairText(p: Property): string {
    p.name + "=" + p.value
  }

  /** The entries, each written as `name=value`. */
  function PairTexts(es: seq<Property>): seq<string> {
    seq(|es|, i requires 0 <= i < |es| => PairText(es[i]))
  }

  /** `formatCookiesObject`: each entry as `name=value`, joined with `"; "`. */
  function FormatCookiesObject(obj: seq<Property>): string {
    Join(PairTexts(Entries(obj)), "; ")
  }

  /** Listing the entries of an object whose properties are already in entry order changes nothing. */
  lemma EntriesIdempotent(obj: seq<Property>)
    ensures Entries(Entries(obj)) == Entries(obj)
  {
    var ix := SortByIndex(IndexProperties(obj));
    var named := NamedProperties(obj);
    var es := ix + named;
    assert Entries(obj) == es;
    SelectAppend(ix, named, HasIndexName);
    SelectAppend(ix, named, HasOtherName);
    SelectAll(ix, HasIndexName);
    SelectNone(ix, HasOtherName);
    SelectNone(named, HasIndexName);
    SelectAll(named, HasOtherName);
    assert IndexProperties(es) == ix && NamedProperties(es) == named;
    SortSorted(ix);
  }

  /** Selecting from a concatenation concatenates the selections. */
  lemma {:induction false} SelectAppend(a: seq<Property>, b: seq<Property>, keep: Property -> bool)
    ensures Select(a + b, keep) == Select(a, keep) + Select(b, keep)
  {
    if |a| > 0 {
      var x := if keep(a[0]) then [a[0]] else [];
      assert (a + b)[0] == a[0];
      assert (a + b)[1..] == a[1..] + b;
      SelectAppend(a[1..], b, keep);
      assert x + (Select(a[1..], keep) + Select(b, keep)) == (x + Select(a[1..], keep)) + Select(b, keep);
    } else {
      assert a + b == b;
    }
  }

  /** Selecting what is all accepted keeps everything. */
  lemma {:induction false} SelectAll(s: seq<Property>, keep: Property -> bool)
    requires forall q :: q in s ==> keep(q)
    ensures Select(s, keep) == s
  {
    if |s| > 0 {
      assert s[0] in s;
      assert forall q :: q in s[1..] ==> q in s;
      SelectAll(s[1..], keep);
    }
  }

  /** Selecting what is all rejected keeps nothing. */
  lemma {:induction false} SelectNone(s: seq<Property>, keep: Property -> bool)
    requires forall q :: q in s ==> !keep(q)
    ensures Select(s, keep) == []
  {
    if |s| > 0 {
      assert s[0] in s;
      assert forall q :: q in s[1..] ==> q in s;
      SelectNone(s[1..], keep);
    }
  }

  /** Putting a property whose name is new in front keeps the names unique. */
  lemma ConsUnique(p: Property, s: seq<Property>)
    requires UniqueNames(s) && forall q :: q in s ==> q.name != p.name
    ensures UniqueNames([p] + s)
  {
    var r := [p] + s;
    forall i, j | 0 <= i < j < |r| ensures r[i].name != r[j].name {
      assert r[j] == s[j - 1];
      if i > 0 {
        assert r[i] == s[i - 1];
      } else {
        assert s[j - 1] in s;
      }
    }
  }

  lemma {:induction false} InsertUnique(p: Property, s: seq<Property>)
    requires UniqueNames(s) && forall q :: q in s ==> q.name != p.name
    ensures UniqueNames(InsertByIndex(p, s))
  {
    if |s| == 0 || IndexValue(p) <= IndexValue(s[0]) {
      ConsUnique(p, s);
    } else {
      assert UniqueNames(s[1..]) by {
        forall i, j | 0 <= i < j < |s[1..]| ensures s[1..][i].name != s[1..][j].name {
          assert s[1..][i] == s[i + 1] && s[1..][j] == s[j + 1];
        }
      }
      assert forall q :: q in s[1..] ==> q in s;
      InsertUnique(p, s[1..]);
      assert s[0] in s;
      forall q | q in s[1..] ensures q.name != s[0].name {
        var j :| 0 <= j < |s[1..]| && s[1..][j] == q;
        assert s[j + 1] == q;
      }
      ConsUnique(s[0], InsertByIndex(p, s[1..]));
    }
  }

  /** The tail of a list with unique names has unique names, none of them the head's. */
  lemma UniqueTail(s: seq<Property>)
    requires |s| > 0 && UniqueNames(s)
    ensures UniqueNames(s[1..])
    ensures forall q :: q in s[1..] ==> q.name != s[0].name
  {
    forall i, j | 0 <= i < j < |s[1..]| ensures s[1..][i].name != s[1..][j].name {
      assert s[1..][i] == s[i + 1] && s[1..][j] == s[j + 1];
    }
    forall q | q in s[1..] ensures q.name != s[0].name {
      var j :| 0 <= j < |s[1..]| && s[1..][j] == q;
      assert s[j + 1] == q;
    }
  }

  lemma {:induction false} SortUnique(s: seq<Property>)
    requires UniqueNames(s)
    ensures UniqueNames(SortByIndex(s))
  {
    if |s| > 0 {
      UniqueTail(s);
      SortUnique(s[1..]);
      InsertUnique(s[0], SortByIndex(s[1..]));
    }
  }

  /** A selection from a list with unique names has unique names. */
  lemma {:induction false} SelectUnique(s: seq<Property>, keep: Property -> bool)
    requires UniqueNames(s)
    ensures UniqueNames(Select(s, keep))
  {
    if |s| > 0 {
      UniqueTail(s);
      SelectUnique(s[1..], keep);
      var rest := Select(s[1..], keep);
      assert forall q :: q in rest ==> q in s[1..];
      if keep(s[0]) {
        ConsUnique(s[0], rest);
      } else {
        assert [] + rest == rest;
      }
    }
  }

  /** Two lists with unique and disjoint names concatenate to one with unique names. */
  lemma AppendUnique(a: seq<Property>, b: seq<Property>)
    requires UniqueNames(a) && UniqueNames(b)
    requires forall p, q :: p in a && q in b ==> p.name != q.name
    ensures UniqueNames(a + b)
  {
    var ab := a + b;
    forall i, j | 0 <= i < j < |ab| ensures ab[i].name != ab[j].name {
      if j < |a| {
        assert ab[i] == a[i] && ab[j] == a[j];
      } else if i >= |a| {
        assert ab[i] == b[i - |a|] && ab[j] == b[j - |a|];
      } else {
        assert ab[i] == a[i] && ab[j] == b[j - |a|];
        assert a[i] in a && b[j - |a|] in b;
      }
    }
  }

  /** Listing the entries repeats no name. */
  lemma EntriesUnique(obj: seq<Property>)
    requires UniqueNames(obj)
    ensures UniqueNames(Entries(obj))
  {
    SelectUnique(obj, HasIndexName);
    SelectUnique(obj, HasOtherName);
    SortUnique(IndexProperties(obj));
    AppendUnique(SortByIndex(IndexProperties(obj)), NamedProperties(obj));
  }

  /** A property that a format-and-parse gives back unchanged. */
  predicate PlainProperty(p: Property, decode: string -> Option<string>) {
    && p.name != "__proto__"
    && ';' !in p.name && ';' !in p.value && '=' !in p.name && '=' !in p.value
    && Unpadded(p.name) && Unpadded(p.value)
    && decode(p.value) == Some(p.value)
  }

  /** A formatted pair, with or without the space after `;`, reads back as the property. */
  lemma SegmentOfPair(p: Property, lead: string, decode: string -> Option<string>)
    requires PlainProperty(p, decode) && (lead == "" || lead == " ")
    ensures SegmentPair(lead + PairText(p)) == Some(p)
  {
    var t := PairText(p);
    assert t[|p.name|] == '=';
    assert Unpadded(t) by {
      if |p.name| > 0 { assert t[0] == p.name[0]; } else { assert t[0] == '='; }
      if |p.value| > 0 { assert t[|t| - 1] == p.value[|p.value| - 1]; } else { assert t[|t| - 1] == '='; }
    }
    TrimUnpadded(t);
    if lead == " " {
      TrimLeadingSpace(' ', t);
    } else {
      assert lead + t == t;
    }
    SegmentPairComplete(lead + t, p.name, p.value);
  }

  /** One more piece that reads back as a property with a decodable value assigns it. */
  lemma ParsedAssigns(segs: seq<string>, obj: seq<Property>, p: Property, v: string, decode: string -> Option<string>)
    requires |segs| > 0 && Parsed(segs[..|segs| - 1], decode) == Some(obj)
    requires SegmentPair(segs[|segs| - 1]) == Some(p) && decode(p.value) == Some(v)
    ensures Parsed(segs, decode) == Some(Assign(obj, p.name, v))
  {
  }

  /** Pieces that each read back as the next property of a list with unique names rebuild that list. */
  lemma {:induction false} ParsedPlain(segs: seq<string>, es: seq<Property>, decode: string -> Option<string>)
    requires |segs| == |es| && UniqueNames(es)
    requires forall i :: 0 <= i < |es| ==> SegmentPair(segs[i]) == Some(es[i])
    requires forall i :: 0 <= i < |es| ==> es[i].name != "__proto__" && decode(es[i].value) == Some(es[i].value)
    ensures Parsed(segs, decode) == Some(es)
  {
    if |segs| > 0 {
      var n := |segs| - 1;
      var init := es[..n];
      var front := segs[..n];
      PrefixPlain(segs, es, decode);
      ParsedPlain(front, init, decode);
      ParsedNewLast(segs, es, decode);
    }
  }

  /** A last piece that reads back as a new property with a value decoding to itself appends that property. */
  lemma ParsedNewLast(segs: seq<string>, es: seq<Property>, decode: string -> Option<string>)
    requires |segs| == |es| > 0
    requires Parsed(segs[..|segs| - 1], decode) == Some(es[..|es| - 1])
    requires SegmentPair(segs[|segs| - 1]) == Some(es[|es| - 1])
    requires es[|es| - 1].name != "__proto__" && decode(es[|es| - 1].value) == Some(es[|es| - 1].value)
    requires es[|es| - 1].name !in Names(es[..|es| - 1])
    ensures Parsed(segs, decode) == Some(es)
  {
    var n := |es| - 1;
    PutNew(es[..n], es[n].name, es[n].value);
    SnocLast(es);
    ParsedAssigns(segs, es[..n], es[n], es[n].value, decode);
  }

  /** A list is its front followed by its last element. */
  lemma SnocLast(es: seq<Property>)
    requires |es| > 0
    ensures es[..|es| - 1] + [es[|es| - 1]] == es
  {
  }

  /** The conditions of `ParsedPlain` hold for every prefix. */
  lemma PrefixPlain(segs: seq<string>, es: seq<Property>, decode: string -> Option<string>)
    requires |segs| == |es| > 0 && UniqueNames(es)
    requires forall i :: 0 <= i < |es| ==> SegmentPair(segs[i]) == Some(es[i])
    requires forall i :: 0 <= i < |es| ==> es[i].name != "__proto__" && decode(es[i].value) == Some(es[i].value)
    ensures var n := |es| - 1; var init := es[..n]; var front := segs[..n];
      && UniqueNames(init)
      && (forall i :: 0 <= i < |init| ==> SegmentPair(front[i]) == Some(init[i]))
      && (forall i :: 0 <= i < |init| ==> init[i].name != "__proto__" && decode(init[i].value) == Some(init[i].value))
      && es[n].name !in Names(init)
  {
    var n := |es| - 1;
    var init := es[..n];
    var front := segs[..n];
    forall j | 0 <= j < |init| ensures Names(init)[j] != es[n].name {
      assert Names(init)[j] == es[j].name;
    }
    forall i, j | 0 <= i < j < |init| ensures init[i].name != init[j].name {
      assert init[i] == es[i] && init[j] == es[j];
    }
    forall i | 0 <= i < |init| ensures SegmentPair(front[i]) == Some(init[i]) {
      assert front[i] == segs[i] && init[i] == es[i];
    }
  }

  /** The formatted text splits on `;` into the pairs, every one but the first after a space. */
  lemma SplitFormatted(es: seq<Property>)
    requires |es| > 0 && forall i :: 0 <= i < |es| ==> ';' !in es[i].name && ';' !in es[i].value
    ensures var text := Join(PairTexts(es), "; ");
      text != "" && Split(text, ';') == Spaced(PairTexts(es))
  {
    var pairs := PairTexts(es);
    var text := Join(pairs, "; ");
    JoinWithSpace(pairs, ';');
    assert [';', ' '] == "; ";
    var segs := Spaced(pairs);
    forall i | 0 <= i < |segs| ensures ';' !in segs[i] {
      assert segs[i] == (if i == 0 then "" else " ") + PairText(es[i]);
    }
    SplitJoin(segs, ';');
    assert pairs[0][|es[0].name|] == '=';
    SplitFirst(text, ';');
  }

  /** Each piece of the formatted text reads back as its entry. */
  lemma PiecesReadBack(es: seq<Property>, decode: string -> Option<string>)
    requires forall i :: 0 <= i < |es| ==> PlainProperty(es[i], decode)
    ensures forall i :: 0 <= i < |es| ==> SegmentPair(Spaced(PairTexts(es))[i]) == Some(es[i])
  {
    var segs := Spaced(PairTexts(es));
    forall i | 0 <= i < |es| ensures SegmentPair(segs[i]) == Some(es[i]) {
      SegmentOfPair(es[i], if i == 0 then "" else " ", decode);
      assert segs[i] == (if i == 0 then "" else " ") + PairText(es[i]);
    }
  }

  /**
   * Formatting an object and parsing the text gives back its entries, for
   * names and values without `;`, `=` or surrounding white space, names other
   * than `__proto__`, and values `decodeURIComponent` leaves as they are; the
   * text formats to itself once more.
   */
  lemma FormatParseRoundTrip(obj: seq<Property>, decode: string -> Option<string>)
    requires UniqueNames(obj) && forall p :: p in obj ==> PlainProperty(p, decode)
    ensures CookieObject(FormatCookiesObject(obj), decode) == Some(Entries(obj))
    ensures FormatCookiesObject(Entries(obj)) == FormatCookiesObject(obj)
  {
    EntriesIdempotent(obj);
    var es := Entries(obj);
    EntriesUnique(obj);
    if |es| > 0 {
      forall i | 0 <= i < |es| ensures PlainProperty(es[i], decode) {
        assert es[i] in obj;
      }
      SplitFormatted(es);
      PiecesReadBack(es, decode);
      ParsedPlain(Spaced(PairTexts(es)), es, decode);
    }
  }
}
