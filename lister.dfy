/**
 * Compose discovery (`get_compose_ids` in compose-check.py, `get_composes` in
 * eln-check.py): keep the hrefs of the index page that match
 * `^({name}-{version}-[^/]*)`, take the matched text as the compose ID, and sort
 * the IDs by their lower-cased text, largest first (`sorted(..., key=str.lower,
 * reverse=True)`, which keeps IDs with equal keys in their original order).
 * The page is given as the sequence of its anchors' href values.
 */
module Lister {
  import opened Wrappers
  import opened Ascii

  /** The text contains none of the characters that a Python regular expression treats specially. */
  predicate NoRegexMeta(s: string)
  {
    forall i :: 0 <= i < |s| ==> s[i] !in ".^$*+?{}[]\\|()"
  }

  /** The literal start of every compose ID: `{name}-{version}-`. */
  function ComposePrefix(name: string, version: string): string
  {
    name + "-" + version + "-"
  }

  /** What `[^/]*` matches at the start of `s`: everything before the first `/`. */
  function TakeUntilSlash(s: string): (r: string)
    ensures r <= s && '/' !in r
    ensures |r| == |s| || s[|r|] == '/'
  {
    if s == [] || s[0] == '/' then [] else [s[0]] + TakeUntilSlash(s[1..])
  }

  /** `re.search(compose_re, href).group()`, or `None` where the href does not match. */
  function MatchId(href: string, prefix: string): (r: Option<string>)
    ensures r.Some? <==> prefix <= href
    ensures r.Some? ==> prefix <= r.value <= href && '/' !in r.value[|prefix|..]
    ensures r.Some? ==> |r.value| == |href| || href[|r.value|] == '/'
  {
    if prefix <= href then Some(prefix + TakeUntilSlash(href[|prefix|..])) else None
  }

  /** When the prefix itself has no `/`, the ID is the href cut at its first `/`. */
  lemma MatchIdCutsAtFirstSlash(href: string, prefix: string)
    requires prefix <= href && '/' !in prefix
    ensures MatchId(href, prefix) == Some(TakeUntilSlash(href))
    ensures '/' !in MatchId(href, prefix).value
  {
    var id := MatchId(href, prefix).value;
    var cut := TakeUntilSlash(href);
    assert id[..|prefix|] == prefix;
    assert forall i :: 0 <= i < |prefix| ==> href[i] != '/' by {
      forall i | 0 <= i < |prefix| ensures href[i] != '/' {
        assert href[i] == prefix[i];
      }
    }
    forall i | 0 <= i < |id| ensures id[i] != '/' {
      if i >= |prefix| {
        assert id[i] == id[|prefix|..][i - |prefix|];
      }
    }
    FirstSlashUnique(href, id);
    FirstSlashUnique(href, cut);
  }

  /** There is only one slash-free prefix that ends at the end or at a `/`. */
  lemma {:induction false} FirstSlashUnique(s: string, r: string)
    requires r <= s && '/' !in r && (|r| == |s| || s[|r|] == '/')
    ensures r == TakeUntilSlash(s)
  {
    if s != [] && s[0] != '/' {
      FirstSlashUnique(s[1..], r[1..]);
    }
  }

  /** The IDs the loop over the matching anchors appends, in page order. */
  function Extracted(hrefs: seq<string>, prefix: string): (ids: seq<string>)
    ensures |ids| <= |hrefs|
    ensures forall i :: 0 <= i < |ids| ==> prefix <= ids[i] && '/' !in ids[i][|prefix|..]
  {
    if hrefs == [] then []
    else
      var last := hrefs[|hrefs| - 1];
      Extracted(hrefs[..|hrefs| - 1], prefix)
      + match MatchId(last, prefix) { case Some(id) => [id] case None => [] }
  }

  /** No false positives and no false negatives: an ID is extracted exactly when some href matches to it. */
  lemma {:induction false} ExtractedExactly(hrefs: seq<string>, prefix: string, id: string)
    ensures id in Extracted(hrefs, prefix) <==> exists h :: h in hrefs && MatchId(h, prefix) == Some(id)
  {
    if hrefs != [] {
      var init, last := hrefs[..|hrefs| - 1], hrefs[|hrefs| - 1];
      ExtractedExactly(init, prefix, id);
      assert hrefs == init + [last];
      if exists h :: h in hrefs && MatchId(h, prefix) == Some(id) {
        var h :| h in hrefs && MatchId(h, prefix) == Some(id);
        if h != last {
          assert h in init;
        }
      }
    }
  }

  /** The positions of `hrefs` whose anchor matches to `id`. */
  ghost function MatchingPositions(hrefs: seq<string>, prefix: string, id: string): set<int>
  {
    set i | 0 <= i < |hrefs| && MatchId(hrefs[i], prefix) == Some(id)
  }

  /** Every matching href yields one ID and no more: duplicates are kept, nothing is merged. */
  lemma {:induction false} ExtractedCounts(hrefs: seq<string>, prefix: string, id: string)
    ensures multiset(Extracted(hrefs, prefix))[id] == |MatchingPositions(hrefs, prefix, id)|
  {
    if hrefs == [] {
      assert MatchingPositions(hrefs, prefix, id) == {};
    } else {
      var n := |hrefs| - 1;
      ExtractedCounts(hrefs[..n], prefix, id);
      MatchingPositionsSnoc(hrefs, prefix, id);
      var tail := match MatchId(hrefs[n], prefix) { case Some(x) => [x] case None => [] };
      assert multiset(Extracted(hrefs, prefix)) == multiset(Extracted(hrefs[..n], prefix)) + multiset(tail);
    }
  }

  /** proof step for `ExtractedCounts`: the last position is counted once, or not at all. */
  lemma MatchingPositionsSnoc(hrefs: seq<string>, prefix: string, id: string)
    requires hrefs != []
    ensures var n := |hrefs| - 1;
      |MatchingPositions(hrefs, prefix, id)|
        == |MatchingPositions(hrefs[..n], prefix, id)| + (if MatchId(hrefs[n], prefix) == Some(id) then 1 else 0)
  {
    var n := |hrefs| - 1;
    var before, after := MatchingPositions(hrefs[..n], prefix, id), MatchingPositions(hrefs, prefix, id);
    var hit := MatchId(hrefs[n], prefix) == Some(id);
    assert forall i :: i in after <==> i in before || (hit && i == n) by {
      forall i ensures i in after <==> i in before || (hit && i == n) {
        if 0 <= i < n {
          assert hrefs[..n][i] == hrefs[i];
        }
      }
    }
    CardinalityOfSnoc(before, after, n, hit);
  }

  /** proof step for `MatchingPositionsSnoc`: adding a fresh element adds one to the cardinality. */
  lemma CardinalityOfSnoc(before: set<int>, after: set<int>, n: int, hit: bool)
    requires n !in before
    requires forall i :: i in after <==> i in before || (hit && i == n)
    ensures |after| == |before| + (if hit then 1 else 0)
  {
    if hit {
      assert after == before + {n} by {
        forall i ensures i in after <==> i in before + {n} {}
      }
    } else {
      assert after == before by {
        forall i ensures i in after <==> i in before {}
      }
    }
  }

  /** The sort key: `str.lower`. */
  function Key(id: string): string
  {
    LowerString(id)
  }

  /**
   * Keys never increase along the sequence: largest lower-cased ID first, which is
   * newest first when the date stamps and respin counters have equal width.
   */
  predicate SortedDescending(ids: seq<string>)
  {
    forall i, j :: 0 <= i < j < |ids| ==> LexLe(Key(ids[j]), Key(ids[i]))
  }

  /** The IDs whose key is `k`, in order: a stable sort leaves this unchanged for every key. */
  function WithKey(ids: seq<string>, k: string): seq<string>
  {
    if ids == [] then [] else (if Key(ids[0]) == k then [ids[0]] else []) + WithKey(ids[1..], k)
  }

  /** Put `id` before the first element whose key is not larger, as a stable descending sort does. */
  function Insert(id: string, ids: seq<string>): (r: seq<string>)
    ensures multiset(r) == multiset(ids) + multiset{id}
  {
    if ids == [] then [id]
    else if LexLe(Key(ids[0]), Key(id)) then [id] + ids
    else
      assert ids == [ids[0]] + ids[1..];
      [ids[0]] + Insert(id, ids[1..])
  }

  /** `sorted(ids, key=str.lower, reverse=True)`. */
  function SortDescending(ids: seq<string>): (r: seq<string>)
    ensures multiset(r) == multiset(ids)
  {
    if ids == [] then []
    else
      assert ids == [ids[0]] + ids[1..];
      Insert(ids[0], SortDescending(ids[1..]))
  }

  lemma {:induction false} InsertSorted(id: string, ids: seq<string>)
    requires SortedDescending(ids)
    ensures SortedDescending(Insert(id, ids))
  {
    if ids != [] && !LexLe(Key(ids[0]), Key(id)) {
      InsertSorted(id, ids[1..]);
      var r := Insert(id, ids);
      var tail := Insert(id, ids[1..]);
      LexLeTotal(Key(ids[0]), Key(id));
      forall j | 1 <= j < |r| ensures LexLe(Key(r[j]), Key(r[0])) {
        assert r[j] == tail[j - 1];
        assert r[j] in multiset(tail);
        if r[j] != id {
          assert r[j] in multiset(ids[1..]);
          var k :| 0 <= k < |ids[1..]| && ids[1..][k] == r[j];
          assert ids[k + 1] == r[j];
        }
      }
    } else if ids != [] {
      forall j | 1 <= j < |ids| ensures LexLe(Key(ids[j]), Key(id)) {
        LexLeTransitive(Key(ids[j]), Key(ids[0]), Key(id));
      }
    }
  }

  lemma {:induction false} InsertStable(id: string, ids: seq<string>, k: string)
    ensures WithKey(Insert(id, ids), k) == WithKey([id] + ids, k)
  {
    if ids != [] && !LexLe(Key(ids[0]), Key(id)) {
      var x, rest := ids[0], ids[1..];
      assert Insert(id, ids) == [x] + Insert(id, rest);
      assert ids == [x] + rest;
      InsertStable(id, rest, k);
      WithKeyCons(x, Insert(id, rest), k);
      WithKeyCons(id, rest, k);
      WithKeyCons(x, rest, k);
      WithKeyCons(id, ids, k);
      OfDistinctKeys(x, id, k);
      SwapEmpty(OfKey(x, k), OfKey(id, k), WithKey(rest, k));
    }
  }

  /** Two IDs with different keys cannot both have the key `k`. */
  lemma OfDistinctKeys(x: string, id: string, k: string)
    requires !LexLe(Key(x), Key(id))
    ensures OfKey(x, k) == [] || OfKey(id, k) == []
  {
    LexLeReflexive(Key(id));
  }

  lemma SwapEmpty(a: seq<string>, b: seq<string>, c: seq<string>)
    requires a == [] || b == []
    ensures a + (b + c) == b + (a + c)
  {
    if a == [] {
      assert a + (b + c) == b + c == b + (a + c);
    } else {
      assert a + (b + c) == a + c == b + (a + c);
    }
  }

  /** `x` alone when its key is `k`. */
  function OfKey(x: string, k: string): seq<string>
  {
    if Key(x) == k then [x] else []
  }

  lemma WithKeyCons(x: string, xs: seq<string>, k: string)
    ensures WithKey([x] + xs, k) == OfKey(x, k) + WithKey(xs, k)
  {
    assert ([x] + xs)[1..] == xs;
  }

  /** The result of the sort is in descending key order. */
  lemma {:induction false} SortDescendingSorted(ids: seq<string>)
    ensures SortedDescending(SortDescending(ids))
  {
    if ids != [] {
      SortDescendingSorted(ids[1..]);
      InsertSorted(ids[0], SortDescending(ids[1..]));
    }
  }

  /** The sort is stable: IDs with equal keys keep their original relative order. */
  lemma {:induction false} SortDescendingStable(ids: seq<string>, k: string)
    ensures WithKey(SortDescending(ids), k) == WithKey(ids, k)
  {
    if ids != [] {
      SortDescendingStable(ids[1..], k);
      InsertStable(ids[0], SortDescending(ids[1..]), k);
      assert ([ids[0]] + SortDescending(ids[1..]))[1..] == SortDescending(ids[1..]);
    }
  }

  /** The ordered list of compose IDs, largest lower-cased ID first. */
  function ComposeIds(hrefs: seq<string>, name: string, version: string): seq<string>
  {
    SortDescending(Extracted(hrefs, ComposePrefix(name, version)))
  }

  /**
   * `get_compose_ids`: the loop over the matching anchors, then the sort.
   * The pattern is built by pasting `name` and `version` into a regular
   * expression unescaped; it means the literal prefix only when they hold
   * no regular-expression metacharacters.
   */
  method GetComposeIds(hrefs: seq<string>, name: string, version: string) returns (ids: seq<string>)
    requires NoRegexMeta(name) && NoRegexMeta(version)
    ensures ids == ComposeIds(hrefs, name, version)
  {
    var prefix := ComposePrefix(name, version);
    var found: seq<string> := [];
    var n := 0;
    while n < |hrefs|
      invariant 0 <= n <= |hrefs|
      invariant found == Extracted(hrefs[..n], prefix)
    {
      var href := hrefs[n];
      if prefix <= href {
        found := found + [prefix + TakeUntilSlash(href[|prefix|..])];
      }
      assert hrefs[..n + 1][..n] == hrefs[..n];
      n := n + 1;
    }
    assert hrefs[..n] == hrefs;
    ids := SortDescending(found);
  }

  /**
   * What `get_compose_ids` returns: the extracted IDs, duplicates kept, sorted
   * by lower-cased text, largest first, and stably among equal keys, each starting with the series
   * prefix and holding no `/` after it.
   */
  lemma ComposeIdsOrdered(hrefs: seq<string>, name: string, version: string)
    ensures var ids, prefix := ComposeIds(hrefs, name, version), ComposePrefix(name, version);
      multiset(ids) == multiset(Extracted(hrefs, prefix))
      && SortedDescending(ids)
      && (forall k :: WithKey(ids, k) == WithKey(Extracted(hrefs, prefix), k))
      && forall i :: 0 <= i < |ids| ==> prefix <= ids[i] && '/' !in ids[i][|prefix|..]
  {
    var prefix := ComposePrefix(name, version);
    var found := Extracted(hrefs, prefix);
    var ids := SortDescending(found);
    SortDescendingSorted(found);
    forall k ensures WithKey(ids, k) == WithKey(found, k) {
      SortDescendingStable(found, k);
    }
    forall i | 0 <= i < |ids| ensures prefix <= ids[i] && '/' !in ids[i][|prefix|..] {
      assert ids[i] in multiset(found);
    }
  }

  /** Of two composes of one series, the one whose lower-cased stamp is larger comes first, whatever the page order. */
  lemma {:induction false} TwoComposesLargerKeyFirst(name: string, version: string, smaller: string, larger: string)
    requires '/' !in ComposePrefix(name, version) && '/' !in smaller && '/' !in larger
    requires !LexLe(Key(larger), Key(smaller))
    ensures var prefix := ComposePrefix(name, version);
      ComposeIds([prefix + smaller + "/", prefix + larger + "/"], name, version) == [prefix + larger, prefix + smaller]
  {
    var prefix := ComposePrefix(name, version);
    var older, newer := smaller, larger;
    var hrefs := [prefix + older + "/", prefix + newer + "/"];
    CutAtSlash(prefix, older);
    CutAtSlash(prefix, newer);
    assert hrefs[..1][..0] == [];
    assert hrefs[..1] == [hrefs[0]];
    var o, n := prefix + older, prefix + newer;
    assert Extracted(hrefs, prefix) == [o, n];
    KeyAppend(prefix, older);
    KeyAppend(prefix, newer);
    LexLeCommonPrefix(Key(prefix), Key(newer), Key(older));
    assert !LexLe(Key(n), Key(o));
    assert SortDescending([n]) == [n];
    assert [o, n][1..] == [n];
  }

  lemma CutAtSlash(prefix: string, id: string)
    requires '/' !in prefix && '/' !in id
    ensures MatchId(prefix + id + "/", prefix) == Some(prefix + id)
  {
    var href := prefix + id + "/";
    assert prefix <= href;
    FirstSlashUnique(href[|prefix|..], id);
    assert href[|prefix|..] == id + "/";
  }

  lemma KeyAppend(a: string, b: string)
    ensures Key(a + b) == Key(a) + Key(b)
  {
  }

  /** A common prefix does not change how two strings compare. */
  lemma {:induction false} LexLeCommonPrefix(p: string, x: string, y: string)
    ensures LexLe(p + x, p + y) == LexLe(x, y)
  {
    if p != [] {
      assert (p + x)[0] == p[0] == (p + y)[0];
      assert (p + x)[1..] == p[1..] + x && (p + y)[1..] == p[1..] + y;
      LexLeCommonPrefix(p[1..], x, y);
    } else {
      assert p + x == x && p + y == y;
    }
  }

  /** Two composes stamped a day apart, listed oldest first, come out newest first: the stamps have equal width. */
  lemma DatedComposesNewestFirst(name: string, version: string)
    requires '/' !in ComposePrefix(name, version)
    ensures var prefix := ComposePrefix(name, version);
      ComposeIds([prefix + "20240101.0" + "/", prefix + "20240102.0" + "/"], name, version)
        == [prefix + "20240102.0", prefix + "20240101.0"]
  {
    var older, newer := "20240101.0", "20240102.0";
    assert '/' !in older && '/' !in newer;
    assert !LexLe(Key(newer), Key(older)) by {
      assert older == "2024010" + "1.0" && newer == "2024010" + "2.0";
      KeyAppend("2024010", "1.0");
      KeyAppend("2024010", "2.0");
      LexLeCommonPrefix(Key("2024010"), Key("2.0"), Key("1.0"));
      assert Key("1.0")[0] == '1' && Key("2.0")[0] == '2';
    }
    TwoComposesLargerKeyFirst(name, version, older, newer);
  }

  /**
   * The order is textual, not chronological: respin `.n.9` of a day sorts before
   * the later respin `.n.10`, since `'9'` is larger than `'1'`.
   */
  lemma RespinNineBeforeTen(name: string, version: string)
    requires '/' !in ComposePrefix(name, version)
    ensures var prefix := ComposePrefix(name, version);
      ComposeIds([prefix + "20240101.n.10" + "/", prefix + "20240101.n.9" + "/"], name, version)
        == [prefix + "20240101.n.9", prefix + "20240101.n.10"]
  {
    var later, earlier := "20240101.n.10", "20240101.n.9";
    assert '/' !in later && '/' !in earlier;
    assert !LexLe(Key(earlier), Key(later)) by {
      assert later == "20240101.n." + "10" && earlier == "20240101.n." + "9";
      KeyAppend("20240101.n.", "10");
      KeyAppend("20240101.n.", "9");
      LexLeCommonPrefix(Key("20240101.n."), Key("9"), Key("10"));
      assert Key("10")[0] == '1' && Key("9")[0] == '9';
    }
    TwoComposesLargerKeyFirst(name, version, later, earlier);
  }
}
