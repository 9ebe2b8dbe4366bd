/**
 * The popup's cookie snapshot (popup.js, `getCookies`): the cookies of the
 * exact host and those sent to the full tab URL, merged through a `Map` keyed
 * by cookie name. A JavaScript `Map` keeps a key at the position of its first
 * `set` and gives it the value of its last `set`.
 */
module Snapshot {
  import opened Browser

  function Names(cs: seq<Cookie>): seq<string> {
    seq(|cs|, i requires 0 <= i < |cs| => cs[i].name)
  }

  /** No name occurs twice. */
  predicate Distinct(ns: seq<string>) {
    forall i, j :: 0 <= i < j < |ns| ==> ns[i] != ns[j]
  }

  /** The keys of a `Map` after `set` was called with `ns` in order. */
  function InsertionOrder(ns: seq<string>): (r: seq<string>)
    ensures Distinct(r)
    ensures forall n :: n in r <==> n in ns
  {
    if |ns| == 0 then []
    else
      var r := InsertionOrder(ns[..|ns| - 1]);
      if ns[|ns| - 1] in r then r else r + [ns[|ns| - 1]]
  }

  /** The index of the first occurrence of `n` in `ns`. */
  function FirstIndex(ns: seq<string>, n: string): (k: nat)
    requires n in ns
    ensures k < |ns| && ns[k] == n
    ensures forall j :: 0 <= j < k ==> ns[j] != n
  {
    if ns[0] == n then 0 else 1 + FirstIndex(ns[1..], n)
  }

  /** The index of the last cookie named `n`. */
  function LastIndex(cs: seq<Cookie>, n: string): (k: nat)
    requires n in Names(cs)
    ensures k < |cs| && cs[k].name == n
    ensures forall j :: k < j < |cs| ==> cs[j].name != n
  {
    var last := |cs| - 1;
    if cs[last].name == n then last
    else
      assert Names(cs[..last]) == Names(cs)[..last];
      LastIndex(cs[..last], n)
  }

  /**
   * The reference definition of the merged snapshot: one cookie per distinct
   * name, names in order of first occurrence, each the last cookie of its name.
   */
  function Merged(cs: seq<Cookie>): seq<Cookie> {
    var order := InsertionOrder(Names(cs));
    seq(|order|, i requires 0 <= i < |order| => cs[LastIndex(cs, order[i])])
  }

  /** Appending a cookie appends its name. */
  lemma NamesSnoc(cs: seq<Cookie>, i: nat)
    requires i < |cs|
    ensures Names(cs[..i + 1]) == Names(cs[..i]) + [cs[i].name]
  {
  }

  /** The position a name was last set is the only one with no later cookie of that name. */
  lemma LastIndexUnique(cs: seq<Cookie>, n: string, k: nat)
    requires k < |cs| && cs[k].name == n
    requires forall j :: k < j < |cs| ==> cs[j].name != n
    ensures n in Names(cs) && LastIndex(cs, n) == k
  {
    assert Names(cs)[k] == n;
  }

  /** One more `set` moves a name's last position to the new cookie or keeps it. */
  lemma LastIndexSnoc(cs: seq<Cookie>, i: nat, n: string)
    requires i < |cs| && (n in Names(cs[..i]) || cs[i].name == n)
    ensures n in Names(cs[..i + 1])
    ensures LastIndex(cs[..i + 1], n) == if cs[i].name == n then i else LastIndex(cs[..i], n)
  {
    NamesSnoc(cs, i);
    var p := cs[..i + 1];
    if cs[i].name == n {
      LastIndexUnique(p, n, i);
    } else {
      var k := LastIndex(cs[..i], n);
      assert p[k] == cs[..i][k];
      LastIndexUnique(p, n, k);
    }
  }

  /** What the merge loop knows after `set` was called for the first `i` cookies. */
  ghost predicate MergedPrefix(all: seq<Cookie>, i: nat, keys: seq<string>, entries: map<string, Cookie>)
    requires i <= |all|
  {
    && keys == InsertionOrder(Names(all[..i]))
    && (forall n :: n in entries <==> n in Names(all[..i]))
    && (forall n :: n in entries ==> entries[n] == all[LastIndex(all[..i], n)])
  }

  /** A new name goes to the end of the key order; a known one changes nothing. */
  lemma InsertionOrderSnoc(ns: seq<string>, n: string)
    ensures InsertionOrder(ns + [n]) == if n in ns then InsertionOrder(ns) else InsertionOrder(ns) + [n]
  {
    assert (ns + [n])[..|ns|] == ns;
  }

  /** After one more `set`, a name's entry is the last cookie of that name so far. */
  lemma EntriesStep(all: seq<Cookie>, i: nat, entries: map<string, Cookie>)
    requires i < |all|
    requires forall n :: n in entries <==> n in Names(all[..i])
    requires forall n :: n in entries ==> entries[n] == all[LastIndex(all[..i], n)]
    ensures var e := entries[all[i].name := all[i]];
      && (forall n :: n in e <==> n in Names(all[..i + 1]))
      && (forall n :: n in e ==> n in Names(all[..i + 1]) && e[n] == all[LastIndex(all[..i + 1], n)])
  {
    var c := all[i];
    NamesSnoc(all, i);
    forall n | n in entries || n == c.name
      ensures n in Names(all[..i + 1])
      ensures LastIndex(all[..i + 1], n) == if c.name == n then i else LastIndex(all[..i], n)
    {
      LastIndexSnoc(all, i, n);
    }
  }

  /** One `map.set(c.name, c)` extends the prefix by one cookie. */
  lemma MergeStep(all: seq<Cookie>, i: nat, keys: seq<string>, entries: map<string, Cookie>)
    requires i < |all| && MergedPrefix(all, i, keys, entries)
    ensures MergedPrefix(all, i + 1,
      if all[i].name in entries then keys else keys + [all[i].name],
      entries[all[i].name := all[i]])
  {
    NamesSnoc(all, i);
    InsertionOrderSnoc(Names(all[..i]), all[i].name);
    EntriesStep(all, i, entries);
  }

  /**
   * `getCookies`' merge: `[...cookies, ...allCookies].forEach(c => map.set(c.name, c))`
   * followed by `Array.from(map.values())`.
   */
  method MergeSnapshot(byDomain: seq<Cookie>, byUrl: seq<Cookie>) returns (snapshot: seq<Cookie>)
    ensures snapshot == Merged(byDomain + byUrl)
  {
    var all := byDomain + byUrl;
    var keys: seq<string> := [];
    var entries: map<string, Cookie> := map[];
    var i := 0;
    while i < |all|
      invariant 0 <= i <= |all|
      invariant MergedPrefix(all, i, keys, entries)
    {
      MergeStep(all, i, keys, entries);
      var c := all[i];
      if c.name !in entries {
        keys := keys + [c.name];
      }
      entries := entries[c.name := c];
      i := i + 1;
    }
    assert all[..i] == all;
    snapshot := seq(|keys|, j requires 0 <= j < |keys| => entries[keys[j]]);
    MergedValues(all, keys, entries, snapshot);
  }

  /** Once every cookie was set, the map's values in key order are the merged snapshot. */
  lemma MergedValues(all: seq<Cookie>, keys: seq<string>, entries: map<string, Cookie>, values: seq<Cookie>)
    requires MergedPrefix(all, |all|, keys, entries)
    requires |values| == |keys| && forall j :: 0 <= j < |keys| ==> keys[j] in entries && values[j] == entries[keys[j]]
    ensures values == Merged(all)
  {
    assert all[..|all|] == all;
  }

  /** Every name of either query appears in the snapshot, and exactly once. */
  lemma MergedNamesExact(byDomain: seq<Cookie>, byUrl: seq<Cookie>)
    ensures Distinct(Names(Merged(byDomain + byUrl)))
    ensures forall n :: n in Names(Merged(byDomain + byUrl)) <==> (n in Names(byDomain) || n in Names(byUrl))
  {
    var all := byDomain + byUrl;
    var order := InsertionOrder(Names(all));
    var m := Merged(all);
    assert Names(m) == order;
    assert Names(all) == Names(byDomain) + Names(byUrl);
  }

  /** The cookie of a name in the second list is its last cookie in the concatenation. */
  lemma LastIndexAppend(a: seq<Cookie>, b: seq<Cookie>, n: string)
    requires n in Names(b)
    ensures n in Names(a + b)
    ensures LastIndex(a + b, n) == |a| + LastIndex(b, n)
    ensures (a + b)[LastIndex(a + b, n)] == b[LastIndex(b, n)]
  {
    var ab := a + b;
    var k := |a| + LastIndex(b, n);
    assert ab[k] == b[LastIndex(b, n)];
    forall j | k < j < |ab| ensures ab[j].name != n {
      assert ab[j] == b[j - |a|];
    }
    LastIndexUnique(ab, n, k);
  }

  /** A name only in the first list keeps that list's last cookie of the name. */
  lemma LastIndexFirstOnly(a: seq<Cookie>, b: seq<Cookie>, n: string)
    requires n in Names(a) && n !in Names(b)
    ensures n in Names(a + b)
    ensures LastIndex(a + b, n) == LastIndex(a, n)
    ensures (a + b)[LastIndex(a + b, n)] == a[LastIndex(a, n)]
  {
    var ab := a + b;
    var k := LastIndex(a, n);
    assert ab[k] == a[k];
    forall j | k < j < |ab| ensures ab[j].name != n {
      if j < |a| {
        assert ab[j] == a[j];
      } else {
        assert ab[j] == b[j - |a|];
        assert Names(b)[j - |a|] == b[j - |a|].name;
      }
    }
    LastIndexUnique(ab, n, k);
  }

  /** The snapshot's entry at `i` is the last cookie of its name. */
  lemma MergedAt(cs: seq<Cookie>, i: nat)
    requires i < |Merged(cs)|
    ensures Merged(cs)[i].name in Names(cs)
    ensures Merged(cs)[i] == cs[LastIndex(cs, Merged(cs)[i].name)]
  {
  }

  /** A name the URL query returned gets the URL query's last cookie of that name. */
  lemma UrlQueryWins(byDomain: seq<Cookie>, byUrl: seq<Cookie>, c: Cookie)
    requires c.name in Names(byDomain + byUrl) && c == (byDomain + byUrl)[LastIndex(byDomain + byUrl, c.name)]
    requires c.name in Names(byUrl)
    ensures c == byUrl[LastIndex(byUrl, c.name)]
  {
    LastIndexAppend(byDomain, byUrl, c.name);
  }

  /** A name only the domain query returned gets the domain query's last cookie of that name. */
  lemma DomainOnlyKept(byDomain: seq<Cookie>, byUrl: seq<Cookie>, c: Cookie)
    requires c.name in Names(byDomain + byUrl) && c == (byDomain + byUrl)[LastIndex(byDomain + byUrl, c.name)]
    requires c.name !in Names(byUrl)
    ensures c.name in Names(byDomain) && c == byDomain[LastIndex(byDomain, c.name)]
  {
    assert Names(byDomain + byUrl) == Names(byDomain) + Names(byUrl);
    LastIndexFirstOnly(byDomain, byUrl, c.name);
  }

  /**
   * Ties go to the URL query: for a name the URL query returned, the snapshot
   * holds the URL query's last cookie of that name; for a name only the
   * domain query returned, the domain query's last cookie.
   */
  lemma UrlQueryWinsTies(byDomain: seq<Cookie>, byUrl: seq<Cookie>, i: nat)
    requires i < |Merged(byDomain + byUrl)|
    ensures var c := Merged(byDomain + byUrl)[i];
      && (c.name in Names(byUrl) ==> c == byUrl[LastIndex(byUrl, c.name)])
      && (c.name !in Names(byUrl) ==> c.name in Names(byDomain) && c == byDomain[LastIndex(byDomain, c.name)])
  {
    MergedAt(byDomain + byUrl, i);
    var c := Merged(byDomain + byUrl)[i];
    if c.name in Names(byUrl) {
      UrlQueryWins(byDomain, byUrl, c);
    } else {
      DomainOnlyKept(byDomain, byUrl, c);
    }
  }

  /** The first occurrence is the only position with no earlier occurrence. */
  lemma FirstIndexUnique(ns: seq<string>, n: string, k: nat)
    requires k < |ns| && ns[k] == n
    requires forall j :: 0 <= j < k ==> ns[j] != n
    ensures FirstIndex(ns, n) == k
  {
  }

  /** The first occurrence of a name in a prefix is its first occurrence overall. */
  lemma FirstIndexPrefix(ns: seq<string>, k: nat, n: string)
    requires k <= |ns| && n in ns[..k]
    ensures FirstIndex(ns, n) == FirstIndex(ns[..k], n)
  {
    var p := FirstIndex(ns[..k], n);
    assert ns[p] == n;
    forall j | 0 <= j < p ensures ns[j] != n {
      assert ns[..k][j] == ns[j];
    }
    FirstIndexUnique(ns, n, p);
  }

  /** `Map` keys are ordered by the position of each name's first occurrence. */
  lemma {:induction false} InsertionOrderByFirstOccurrence(ns: seq<string>, i: nat, j: nat)
    requires i < j < |InsertionOrder(ns)|
    ensures FirstIndex(ns, InsertionOrder(ns)[i]) < FirstIndex(ns, InsertionOrder(ns)[j])
  {
    var init := ns[..|ns| - 1];
    var r := InsertionOrder(init);
    var x := InsertionOrder(ns)[i];
    var y := InsertionOrder(ns)[j];
    assert x in init by { assert x == r[i]; }
    FirstIndexPrefix(ns, |ns| - 1, x);
    if j < |r| {
      InsertionOrderByFirstOccurrence(init, i, j);
      FirstIndexPrefix(ns, |ns| - 1, y);
    } else {
      assert y == ns[|ns| - 1] && y !in init;
      forall f | 0 <= f < |ns| - 1 ensures ns[f] != y {
        assert init[f] == ns[f];
      }
      FirstIndexUnique(ns, y, |ns| - 1);
    }
  }

  /** In the snapshot, a cookie precedes another exactly when its name was seen first. */
  lemma SnapshotOrder(byDomain: seq<Cookie>, byUrl: seq<Cookie>, i: nat, j: nat)
    requires i < j < |Merged(byDomain + byUrl)|
    ensures var all := Names(byDomain + byUrl);
      var m := Merged(byDomain + byUrl);
      m[i].name in all && m[j].name in all && FirstIndex(all, m[i].name) < FirstIndex(all, m[j].name)
  {
    InsertionOrderByFirstOccurrence(Names(byDomain + byUrl), i, j);
  }
}
