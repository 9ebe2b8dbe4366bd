/**
 * String operations of JavaScript that the extension relies on:
 * `String.prototype.split` with a one-character separator,
 * `Array.prototype.join` and `String.prototype.trim`.
 */
module Text {

  /** The code points `trim` removes: JavaScript's WhiteSpace and LineTerminator. */
  predicate IsSpace(c: char) {
    || c == ' ' || c == '\t' || c == '\n' || c == '\r'
    || c == '\U{000B}' || c == '\U{000C}' || c == '\U{00A0}' || c == '\U{1680}'
    || ('\U{2000}' <= c <= '\U{200A}')
    || c == '\U{2028}' || c == '\U{2029}' || c == '\U{202F}' || c == '\U{205F}'
    || c == '\U{3000}' || c == '\U{FEFF}'
  }

  /** No white space at either end. */
  predicate Unpadded(s: string) {
    |s| > 0 ==> !IsSpace(s[0]) && !IsSpace(s[|s| - 1])
  }

  /** `trimStart`: the longest suffix of `s` that does not begin with white space. */
  function TrimStart(s: string): (r: string)
    ensures |r| <= |s| && r == s[|s| - |r|..]
    ensures forall k :: 0 <= k < |s| - |r| ==> IsSpace(s[k])
    ensures |r| > 0 ==> !IsSpace(r[0])
  {
    if |s| > 0 && IsSpace(s[0]) then TrimStart(s[1..]) else s
  }

  /** `trimEnd`: the longest prefix of `s` that does not end with white space. */
  function TrimEnd(s: string): (r: string)
    ensures |r| <= |s| && r == s[..|r|]
    ensures forall k :: |r| <= k < |s| ==> IsSpace(s[k])
    ensures |r| > 0 ==> !IsSpace(r[|r| - 1])
  {
    if |s| > 0 && IsSpace(s[|s| - 1]) then TrimEnd(s[..|s| - 1]) else s
  }

  /** `trim`: both ends stripped of white space. */
  function Trim(s: string): (r: string)
    ensures Unpadded(r)
  {
    TrimEnd(TrimStart(s))
  }

  /**
   * What `trim` keeps is the slice `s[i..j]`, with only white space before
   * and after it; with `Unpadded`, nothing removable is left at either end.
   */
  lemma TrimSlice(s: string) returns (i: nat, j: nat)
    ensures i <= j <= |s| && Trim(s) == s[i..j]
    ensures forall k :: 0 <= k < i ==> IsSpace(s[k])
    ensures forall k :: j <= k < |s| ==> IsSpace(s[k])
  {
    var t := TrimStart(s);
    i, j := StripSlice(s, t, TrimEnd(t), IsSpace);
  }

  /**
   * Cutting a prefix of `p`-characters off `s` and then a suffix of
   * `p`-characters off the rest leaves a slice of `s` with only
   * `p`-characters around it.
   */
  lemma StripSlice(s: string, t: string, u: string, p: char -> bool) returns (i: nat, j: nat)
    requires |t| <= |s| && t == s[|s| - |t|..] && forall k :: 0 <= k < |s| - |t| ==> p(s[k])
    requires |u| <= |t| && u == t[..|u|] && forall k :: |u| <= k < |t| ==> p(t[k])
    ensures i <= j <= |s| && u == s[i..j]
    ensures forall k :: 0 <= k < i ==> p(s[k])
    ensures forall k :: j <= k < |s| ==> p(s[k])
  {
    i, j := |s| - |t|, |s| - |t| + |u|;
    forall k | j <= k < |s|
      ensures p(s[k])
    {
      assert s[k] == t[k - i];
    }
  }

  /** Trimming leaves a string without surrounding white space as it is. */
  lemma TrimUnpadded(s: string)
    requires Unpadded(s)
    ensures Trim(s) == s
  {
  }

  /** Leading white space does not survive `trim`. */
  lemma TrimLeadingSpace(c: char, s: string)
    requires IsSpace(c)
    ensures Trim([c] + s) == Trim(s)
  {
    assert ([c] + s)[1..] == s;
  }

  /** `Array.prototype.join`: the parts with `sep` between neighbours. */
  function Join(parts: seq<string>, sep: string): string {
    if |parts| == 0 then ""
    else if |parts| == 1 then parts[0]
    else parts[0] + sep + Join(parts[1..], sep)
  }

  /** The summed length of the parts. */
  function TotalLength(parts: seq<string>): nat {
    if |parts| == 0 then 0 else |parts[0]| + TotalLength(parts[1..])
  }

  /** A join of `n` parts holds the parts' characters and `n - 1` separators. */
  lemma {:induction false} JoinLength(parts: seq<string>, sep: string)
    requires |parts| > 0
    ensures |Join(parts, sep)| == TotalLength(parts) + (|parts| - 1) * |sep|
  {
    if |parts| > 1 {
      JoinLength(parts[1..], sep);
      assert (|parts| - 1) * |sep| == (|parts| - 2) * |sep| + |sep|;
    }
  }

  /** Joining the concatenation of two non-empty lists puts one separator between them. */
  lemma {:induction false} JoinAppend(a: seq<string>, b: seq<string>, sep: string)
    requires |a| > 0 && |b| > 0
    ensures Join(a + b, sep) == Join(a, sep) + sep + Join(b, sep)
  {
    if |a| == 1 {
      assert (a + b)[1..] == b;
    } else {
      assert (a + b)[1..] == a[1..] + b;
      JoinAppend(a[1..], b, sep);
    }
  }

  /** Prepending text to the first part prepends it to the joined string. */
  lemma JoinPrefixFirst(x: string, parts: seq<string>, sep: string)
    requires |parts| > 0
    ensures Join([x + parts[0]] + parts[1..], sep) == x + Join(parts, sep)
  {
    var q := [x + parts[0]] + parts[1..];
    assert q[1..] == parts[1..];
  }

  /** `s.split(sep)` for a one-character separator: the pieces between separators. */
  function Split(s: string, sep: char): (r: seq<string>)
    ensures |r| >= 1
    ensures forall i :: 0 <= i < |r| ==> sep !in r[i]
    ensures Join(r, [sep]) == s
  {
    if |s| == 0 then [""]
    else
      var rest := Split(s[1..], sep);
      if s[0] == sep then
        assert ([""] + rest)[1..] == rest;
        [""] + rest
      else
        JoinPrefixFirst([s[0]], rest, [sep]);
        [[s[0]] + rest[0]] + rest[1..]
  }

  /** Text without the separator in front of a string extends its first piece. */
  lemma {:induction false} SplitPrefix(x: string, t: string, sep: char)
    requires sep !in x
    ensures Split(x + t, sep) == [x + Split(t, sep)[0]] + Split(t, sep)[1..]
  {
    if |x| > 0 {
      assert (x + t)[1..] == x[1..] + t;
      SplitPrefix(x[1..], t, sep);
      assert [x[0]] + (x[1..] + Split(t, sep)[0]) == x + Split(t, sep)[0];
    } else {
      var r := Split(t, sep);
      assert x + t == t && x + r[0] == r[0];
      assert [r[0]] + r[1..] == r;
    }
  }

  /** A leading separator splits off an empty first piece. */
  lemma SplitLeadingSep(t: string, sep: char)
    ensures Split([sep] + t, sep) == [""] + Split(t, sep)
  {
    assert ([sep] + t)[1..] == t;
  }

  /** One more part in front, free of the separator, becomes one more piece in front. */
  lemma SplitJoinStep(x: string, tail: string, rest: seq<string>, sep: char)
    requires sep !in x && Split(tail, sep) == rest
    ensures Split(x + [sep] + tail, sep) == [x] + rest
  {
    var after := [sep] + tail;
    SplitLeadingSep(tail, sep);
    var r := Split(after, sep);
    assert r[0] == "" && r[1..] == rest;
    SplitPrefix(x, after, sep);
    assert x + r[0] == x;
    assert x + [sep] + tail == x + after;
  }

  /** Splitting undoes joining when no part contains the separator. */
  lemma {:induction false} SplitJoin(parts: seq<string>, sep: char)
    requires |parts| > 0
    requires forall i :: 0 <= i < |parts| ==> sep !in parts[i]
    ensures Split(Join(parts, [sep]), sep) == parts
  {
    if |parts| == 1 {
      SplitPrefix(parts[0], "", sep);
      assert parts[0] + "" == parts[0];
    } else {
      var rest := parts[1..];
      assert forall i :: 0 <= i < |rest| ==> sep !in rest[i] by {
        forall i | 0 <= i < |rest| ensures sep !in rest[i] {
          assert rest[i] == parts[i + 1];
        }
      }
      SplitJoin(rest, sep);
      SplitJoinStep(parts[0], Join(rest, [sep]), rest, sep);
      assert [parts[0]] + rest == parts;
    }
  }

  /** The parts after the first with a space in front: how `"; "` reads to a split on `;`. */
  function Spaced(parts: seq<string>): seq<string> {
    seq(|parts|, i requires 0 <= i < |parts| => if i == 0 then parts[0] else " " + parts[i])
  }

  /** Joining with a separator and a space equals joining the spaced parts with the separator alone. */
  lemma {:induction false} JoinWithSpace(parts: seq<string>, c: char)
    ensures Join(parts, [c, ' ']) == Join(Spaced(parts), [c])
  {
    if |parts| > 1 {
      JoinWithSpace(parts[1..], c);
      var rest := Spaced(parts[1..]);
      JoinPrefixFirst(" ", rest, [c]);
      assert Spaced(parts)[1..] == [" " + rest[0]] + rest[1..];
      assert [c, ' '] == [c] + " ";
    }
  }

  /** Splitting at the first separator, or not at all when there is none. */
  lemma SplitAt(s: string, sep: char, k: nat)
    requires k <= |s| && sep !in s[..k]
    requires k < |s| ==> s[k] == sep
    ensures k == |s| ==> Split(s, sep) == [s]
    ensures k < |s| ==> Split(s, sep) == [s[..k]] + Split(s[k + 1..], sep)
  {
    if k == |s| {
      SplitPrefix(s, "", sep);
      assert s + "" == s && s[..k] == s;
    } else {
      var t := s[k..];
      assert s == s[..k] + t;
      SplitPrefix(s[..k], t, sep);
      assert t[1..] == s[k + 1..];
      assert s[..k] + "" == s[..k];
    }
  }

  /** The first piece of a split, and where the rest starts. */
  lemma SplitFirst(s: string, sep: char)
    ensures var parts := Split(s, sep); var k := |parts[0]|;
      && k <= |s| && s[..k] == parts[0]
      && (|parts| == 1 <==> k == |s|)
      && (k < |s| ==> s[k] == sep && Split(s[k + 1..], sep) == parts[1..])
  {
    var parts := Split(s, sep);
    var k := |parts[0]|;
    if |parts| > 1 {
      var tail := Join(parts[1..], [sep]);
      assert s == parts[0] + [sep] + tail;
      assert s[..k] == parts[0];
      assert s[k + 1..] == tail;
      SplitJoin(parts[1..], sep);
    }
  }

  /** A digit of the radix (10 or 16), in the ASCII range. */
  predicate IsDigit(c: char, radix: nat) {
    if radix == 16 then '0' <= c <= '9' || 'a' <= c <= 'f' || 'A' <= c <= 'F'
    else '0' <= c <= '9'
  }

  /** The value of a digit character, letters counting from ten. */
  function DigitValue(c: char): nat {
    if '0' <= c <= '9' then c as nat - '0' as nat
    else if 'a' <= c <= 'f' then c as nat - 'a' as nat + 10
    else if 'A' <= c <= 'F' then c as nat - 'A' as nat + 10
    else 0
  }

  /** The value of a digit string, most significant digit first. */
  function DigitsValue(ds: string, radix: nat): nat {
    if |ds| == 0 then 0 else DigitsValue(ds[..|ds| - 1], radix) * radix + DigitValue(ds[|ds| - 1])
  }
}
