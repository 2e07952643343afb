/** The article-handling part of `build_feed` (main.py:244-264): a stable
    sort by publication time, newest first, with missing dates read as the
    1970 epoch; one pass that keeps the first article per link; and the
    mapping of each survivor to an RSS item. */
module Feed {
  import opened Wrappers
  import opened Times
  import opened Journals

  // The sort of main.py:247-251.

  /** The sort key `ensure_timezone(entry.published)`, as a UTC instant. */
  function Key(a: Article): int {
    Instant(EnsureTimezone(a.published))
  }

  /** What the key means: a missing date sorts as the 1970 epoch, an aware
      one by its UTC instant, a naive one by its wall clock read as UTC. */
  lemma KeyMeaning(a: Article)
    ensures a.published.None? ==> Key(a) == 0
    ensures a.published.Some? && a.published.value.IsAware() ==>
      Key(a) == a.published.value.wall - a.published.value.offset.value
    ensures a.published.Some? && !a.published.value.IsAware() ==> Key(a) == a.published.value.wall
  {
  }

  /** Newest first: keys never increase along the sequence. */
  predicate SortedByRecency(s: seq<Article>) {
    forall i, j :: 0 <= i < j < |s| ==> Key(s[i]) >= Key(s[j])
  }

  /** The articles of `s` whose key is `k`, in their order in `s`. */
  function WithKey(s: seq<Article>, k: int): seq<Article> {
    if s == [] then [] else (if Key(s[0]) == k then [s[0]] else []) + WithKey(s[1..], k)
  }

  /** Places `x` before the first article of `s` that is not newer, so that
      it precedes the articles of equal key that followed it in the input. */
  function Insert(x: Article, s: seq<Article>): (r: seq<Article>)
    requires SortedByRecency(s)
    ensures SortedByRecency(r)
    ensures multiset(r) == multiset(s) + multiset{x}
    ensures r[0] == x || (s != [] && r[0] == s[0])
  {
    if s == [] || Key(x) >= Key(s[0]) then
      ConsSorted(x, s);
      assert multiset([x] + s) == multiset{x} + multiset(s);
      [x] + s
    else
      SortedTail(s);
      var rest := Insert(x, s[1..]);
      InsertStep(x, s, rest);
      [s[0]] + rest
  }

  /** The recursive case of `Insert`: the head of `s` goes back in front of
      `x` inserted into the tail. */
  lemma InsertStep(x: Article, s: seq<Article>, rest: seq<Article>)
    requires s != [] && SortedByRecency(s) && Key(x) < Key(s[0])
    requires SortedByRecency(rest) && multiset(rest) == multiset(s[1..]) + multiset{x}
    requires rest[0] == x || (s[1..] != [] && rest[0] == s[1..][0])
    ensures SortedByRecency([s[0]] + rest)
    ensures multiset([s[0]] + rest) == multiset(s) + multiset{x}
  {
    SortedTail(s);
    assert Key(rest[0]) <= Key(s[0]);
    ConsSorted(s[0], rest);
    assert s == [s[0]] + s[1..];
  }

  /** The tail of a newest-first sequence is newest-first and no newer than its head. */
  lemma SortedTail(s: seq<Article>)
    requires s != [] && SortedByRecency(s)
    ensures SortedByRecency(s[1..])
    ensures forall a :: a in s[1..] ==> Key(a) <= Key(s[0])
  {
    assert forall i :: 0 <= i < |s| - 1 ==> s[1..][i] == s[i + 1];
  }

  /** An article at least as new as the head of a newest-first sequence can go in front. */
  lemma ConsSorted(a: Article, s: seq<Article>)
    requires SortedByRecency(s) && (s == [] || Key(a) >= Key(s[0]))
    ensures SortedByRecency([a] + s)
  {
    var r := [a] + s;
    forall i, j | 0 <= i < j < |r| ensures Key(r[i]) >= Key(r[j]) {
      assert r[j] == s[j - 1];
      if i > 0 {
        assert r[i] == s[i - 1];
      } else if j > 1 {
        assert Key(s[0]) >= Key(s[j - 1]);
      }
    }
  }

  lemma InsertFront(x: Article, s: seq<Article>)
    requires SortedByRecency(s) && (s == [] || Key(x) >= Key(s[0]))
    ensures Insert(x, s) == [x] + s
  {
  }

  lemma InsertPast(x: Article, s: seq<Article>)
    requires SortedByRecency(s) && s != [] && Key(x) < Key(s[0])
    ensures SortedByRecency(s[1..])
    ensures Insert(x, s) == [s[0]] + Insert(x, s[1..])
  {
    SortedTail(s);
  }

  /** `sorted(articles, key=..., reverse=True)`: Python's sort is stable,
      reverse=True included, so this is an insertion sort that keeps equal
      keys in input order. */
  function SortByRecency(s: seq<Article>): (r: seq<Article>)
    ensures SortedByRecency(r)
    ensures multiset(r) == multiset(s)
  {
    if s == [] then []
    else
      assert s == [s[0]] + s[1..];
      Insert(s[0], SortByRecency(s[1..]))
  }

  /** One step of `WithKey` on a sequence with a known head. */
  lemma WithKeyCons(a: Article, t: seq<Article>, k: int)
    ensures WithKey([a] + t, k) == (if Key(a) == k then [a] else []) + WithKey(t, k)
  {
    assert ([a] + t)[0] == a && ([a] + t)[1..] == t;
  }

  lemma {:induction false} InsertWithKey(x: Article, s: seq<Article>, k: int)
    requires SortedByRecency(s)
    ensures WithKey(Insert(x, s), k) == (if Key(x) == k then [x] else []) + WithKey(s, k)
  {
    if s == [] || Key(x) >= Key(s[0]) {
      InsertFront(x, s);
      WithKeyCons(x, s, k);
    } else {
      InsertPast(x, s);
      var rest := Insert(x, s[1..]);
      InsertWithKey(x, s[1..], k);
      WithKeyCons(s[0], rest, k);
      var px := if Key(x) == k then [x] else [];
      var ps := if Key(s[0]) == k then [s[0]] else [];
      assert WithKey(s, k) == ps + WithKey(s[1..], k);
      SwapPrefixes(px, ps, WithKey(s[1..], k));
    }
  }

  /** Two prefixes of which one is empty commute. */
  lemma SwapPrefixes(px: seq<Article>, ps: seq<Article>, t: seq<Article>)
    requires px == [] || ps == []
    ensures ps + (px + t) == px + (ps + t)
  {
  }

  /** Stability: for every key, the articles with that key keep their
      relative input order. */
  lemma {:induction false} SortStable(s: seq<Article>, k: int)
    ensures WithKey(SortByRecency(s), k) == WithKey(s, k)
  {
    if s != [] {
      SortStable(s[1..], k);
      InsertWithKey(s[0], SortByRecency(s[1..]), k);
    }
  }

  lemma {:induction false} WithKeyMembers(s: seq<Article>, k: int)
    ensures forall a :: a in WithKey(s, k) <==> a in s && Key(a) == k
  {
    if s != [] {
      WithKeyMembers(s[1..], k);
      assert forall a :: a in s <==> a == s[0] || a in s[1..];
    }
  }

  /** One step of `WithKey` on a non-empty sequence. */
  lemma {:induction false} WithKeyTail(r: seq<Article>, k: int)
    requires r != []
    ensures WithKey(r, k) == (if Key(r[0]) == k then [r[0]] else []) + WithKey(r[1..], k)
  {
  }

  lemma WithKeyOfHead(s: seq<Article>)
    ensures s != [] ==> WithKey(s, Key(s[0])) != []
  {
  }

  /** The stable sort is the only order that is newest-first and keeps
      every key's articles in input order: any such arrangement of the
      articles is exactly what `SortByRecency` returns. */
  lemma {:induction false} SortUnique(s: seq<Article>, r: seq<Article>)
    requires SortedByRecency(r)
    requires forall k :: WithKey(r, k) == WithKey(s, k)
    ensures r == SortByRecency(s)
  {
    var t := SortByRecency(s);
    forall k ensures WithKey(r, k) == WithKey(t, k) {
      SortStable(s, k);
    }
    SortedSameGroupsEqual(r, t);
  }

  lemma {:induction false} SortedSameGroupsEqual(r: seq<Article>, t: seq<Article>)
    requires SortedByRecency(r) && SortedByRecency(t)
    requires forall k :: WithKey(r, k) == WithKey(t, k)
    ensures r == t
    decreases |r|
  {
    if r == [] || t == [] {
      // A non-empty side has a non-empty group for its first key.
      WithKeyOfHead(r);
      WithKeyOfHead(t);
    } else {
      HeadsEqual(r, t);
      forall k ensures WithKey(r[1..], k) == WithKey(t[1..], k) {
        TailGroups(r, t, k);
      }
      SortedTail(r);
      SortedTail(t);
      SortedSameGroupsEqual(r[1..], t[1..]);
      assert r == [r[0]] + r[1..] && t == [t[0]] + t[1..];
    }
  }

  /** Two newest-first sequences with the same key groups start alike: the
      newest key is the same on both sides, and so is its first article. */
  lemma HeadsEqual(r: seq<Article>, t: seq<Article>)
    requires r != [] && t != []
    requires SortedByRecency(r) && SortedByRecency(t)
    requires forall k :: WithKey(r, k) == WithKey(t, k)
    ensures r[0] == t[0]
  {
    var kr, kt := Key(r[0]), Key(t[0]);
    WithKeyMembers(r, kt);
    WithKeyMembers(t, kr);
    assert r[0] in WithKey(r, kr) && t[0] in WithKey(t, kt);
    assert kr >= kt by {
      var b :| b in r && Key(b) == kt;
      var i :| 0 <= i < |r| && r[i] == b;
    }
    assert kt >= kr by {
      var b :| b in t && Key(b) == kr;
      var i :| 0 <= i < |t| && t[i] == b;
    }
    WithKeyTail(r, kr);
    WithKeyTail(t, kr);
    assert WithKey(r, kr)[0] == r[0];
    assert WithKey(t, kr)[0] == t[0];
  }

  /** Removing the same head from both sides keeps the key groups equal. */
  lemma TailGroups(r: seq<Article>, t: seq<Article>, k: int)
    requires r != [] && t != [] && r[0] == t[0]
    requires WithKey(r, k) == WithKey(t, k)
    ensures WithKey(r[1..], k) == WithKey(t[1..], k)
  {
    var head := if Key(r[0]) == k then [r[0]] else [];
    WithKeyTail(r, k);
    WithKeyTail(t, k);
    assert WithKey(r[1..], k) == (head + WithKey(r[1..], k))[|head|..];
    assert WithKey(t[1..], k) == (head + WithKey(t[1..], k))[|head|..];
  }

  // The de-duplication pass of main.py:246, 253-256.

  /** The links of the articles of `s`. */
  function Links(s: seq<Article>): set<string> {
    set a | a in s :: a.link
  }

  predicate DistinctLinks(s: seq<Article>) {
    forall i, j :: 0 <= i < j < |s| ==> s[i].link != s[j].link
  }

  lemma LinksTail(s: seq<Article>)
    requires s != []
    ensures Links(s) == {s[0].link} + Links(s[1..])
    ensures forall a :: a in s <==> a == s[0] || a in s[1..]
  {
    assert forall a :: a in s <==> a == s[0] || a in s[1..] by {
      assert s == [s[0]] + s[1..];
    }
  }

  /** Putting an article with a new link in front of a sequence of
      distinct links keeps the links distinct. */
  lemma LinksCons(a: Article, s: seq<Article>)
    ensures Links([a] + s) == {a.link} + Links(s)
    ensures forall b :: b in [a] + s <==> b == a || b in s
    ensures DistinctLinks(s) && a.link !in Links(s) ==> DistinctLinks([a] + s)
  {
    LinksTail([a] + s);
    assert ([a] + s)[1..] == s;
    if DistinctLinks(s) && a.link !in Links(s) {
      forall j | 0 <= j < |s| ensures s[j].link != a.link {
        assert s[j] in s;
      }
    }
  }

  /** `x` is `y` with some articles left out and the others in their order. */
  predicate Subsequence(x: seq<Article>, y: seq<Article>)
    decreases |y|
  {
    || x == []
    || (&& y != []
        && ((x[0] == y[0] && Subsequence(x[1..], y[1..])) || Subsequence(x, y[1..])))
  }

  /** An article put in front of the longer sequence may be skipped. */
  lemma SubsequenceCons(c: Article, x: seq<Article>, y: seq<Article>)
    requires Subsequence(x, y)
    ensures Subsequence(x, [c] + y)
  {
    assert ([c] + y)[1..] == y;
  }

  /** The loop over `sorted_articles` from a given set of links already
      seen: an article is kept when its link is new, and its link is then
      marked seen. */
  function DedupFrom(s: seq<Article>, seen: set<string>): (r: seq<Article>)
    ensures forall a :: a in r ==> a in s
    ensures Subsequence(r, s)
  {
    if s == [] then []
    else
      LinksTail(s);
      if s[0].link in seen then
        var rest := DedupFrom(s[1..], seen);
        SubsequenceCons(s[0], rest, s[1..]);
        assert [s[0]] + s[1..] == s;
        rest
      else
        var rest := DedupFrom(s[1..], seen + {s[0].link});
        LinksCons(s[0], rest);
        assert ([s[0]] + rest)[1..] == rest;
        [s[0]] + rest
  }

  /** The pass keeps one article per link not seen before, and no other. */
  lemma {:induction false} DedupFromLinks(s: seq<Article>, seen: set<string>)
    ensures DistinctLinks(DedupFrom(s, seen))
    ensures Links(DedupFrom(s, seen)) == Links(s) - seen
  {
    if s != [] {
      LinksTail(s);
      if s[0].link in seen {
        DedupFromLinks(s[1..], seen);
      } else {
        var rest := DedupFrom(s[1..], seen + {s[0].link});
        DedupFromLinks(s[1..], seen + {s[0].link});
        LinksCons(s[0], rest);
      }
    }
  }

  /** The pass works piecewise: the second part is filtered against the
      links seen so far and those of the first part. */
  lemma {:induction false} DedupFromAppend(a: seq<Article>, b: seq<Article>, seen: set<string>)
    ensures DedupFrom(a + b, seen) == DedupFrom(a, seen) + DedupFrom(b, seen + Links(a))
    decreases |a|, 1
  {
    if a == [] {
      assert a + b == b;
      assert Links(a) == {};
      assert seen + Links(a) == seen;
    } else {
      assert a == [a[0]] + a[1..];
      if a[0].link in seen {
        DedupFromAppendSeen(a[0], a[1..], b, seen);
      } else {
        DedupFromAppendNew(a[0], a[1..], b, seen);
      }
    }
  }

  /** `DedupFromAppend` when the first article's link was already seen. */
  lemma {:induction false} DedupFromAppendSeen(c: Article, t: seq<Article>, b: seq<Article>, seen: set<string>)
    requires c.link in seen
    ensures DedupFrom([c] + t + b, seen) == DedupFrom([c] + t, seen) + DedupFrom(b, seen + Links([c] + t))
    decreases |t| + 1, 0
  {
    assert [c] + t + b == [c] + (t + b);
    var later := seen + Links([c] + t);
    assert later == seen + Links(t) by {
      LinksCons(c, t);
    }
    assert DedupFrom([c] + (t + b), seen) == DedupFrom(t + b, seen) by {
      DedupFromCons(c, t + b, seen);
    }
    assert DedupFrom([c] + t, seen) == DedupFrom(t, seen) by {
      DedupFromCons(c, t, seen);
    }
    DedupFromAppend(t, b, seen);
  }

  /** `DedupFromAppend` when the first article's link is new. */
  lemma {:induction false} DedupFromAppendNew(c: Article, t: seq<Article>, b: seq<Article>, seen: set<string>)
    requires c.link !in seen
    ensures DedupFrom([c] + t + b, seen) == DedupFrom([c] + t, seen) + DedupFrom(b, seen + Links([c] + t))
    decreases |t| + 1, 0
  {
    var seen' := seen + {c.link};
    var later := seen + Links([c] + t);
    calc {
      DedupFrom([c] + t + b, seen);
      { assert [c] + t + b == [c] + (t + b); }
      DedupFrom([c] + (t + b), seen);
      { DedupFromCons(c, t + b, seen); }
      [c] + DedupFrom(t + b, seen');
      { DedupFromAppend(t, b, seen'); }
      [c] + (DedupFrom(t, seen') + DedupFrom(b, seen' + Links(t)));
      { LinksCons(c, t); assert seen' + Links(t) == later; }
      [c] + (DedupFrom(t, seen') + DedupFrom(b, later));
      ([c] + DedupFrom(t, seen')) + DedupFrom(b, later);
      { DedupFromCons(c, t, seen); }
      DedupFrom([c] + t, seen) + DedupFrom(b, later);
    }
  }

  /** One step of the pass. */
  lemma DedupFromCons(c: Article, s: seq<Article>, seen: set<string>)
    ensures DedupFrom([c] + s, seen) ==
      if c.link in seen then DedupFrom(s, seen) else [c] + DedupFrom(s, seen + {c.link})
  {
    assert ([c] + s)[0] == c && ([c] + s)[1..] == s;
  }

  /** The pass as `build_feed` starts it, with no link seen. */
  function Dedup(s: seq<Article>): seq<Article> {
    DedupFrom(s, {})
  }

  /** The first article of `s` with link `l`. */
  function FirstWith(s: seq<Article>, l: string): (a: Article)
    requires l in Links(s)
    ensures a in s && a.link == l
  {
    assert forall b :: b in s <==> b == s[0] || b in s[1..];
    if s[0].link == l then s[0] else FirstWith(s[1..], l)
  }

  /** First wins: every survivor is the first article with its link. */
  lemma {:induction false} DedupFromFirstWins(s: seq<Article>, seen: set<string>)
    ensures forall a :: a in DedupFrom(s, seen) ==> a.link in Links(s) && a == FirstWith(s, a.link)
  {
    if s != [] {
      assert forall a :: a in s <==> a == s[0] || a in s[1..];
      if s[0].link in seen {
        DedupFromFirstWins(s[1..], seen);
        DedupFromLinks(s[1..], seen);
        var rest := DedupFrom(s[1..], seen);
        assert forall a :: a in rest ==> a.link in Links(rest);
      } else {
        DedupFromFirstWins(s[1..], seen + {s[0].link});
        DedupFromLinks(s[1..], seen + {s[0].link});
        var rest := DedupFrom(s[1..], seen + {s[0].link});
        assert forall a :: a in rest ==> a.link in Links(rest);
      }
    }
  }

  /** Dropping repeats from a newest-first sequence keeps it newest-first. */
  lemma {:induction false} DedupFromSorted(s: seq<Article>, seen: set<string>)
    requires SortedByRecency(s)
    ensures SortedByRecency(DedupFrom(s, seen))
  {
    if s != [] {
      SortedTail(s);
      if s[0].link in seen {
        DedupFromSorted(s[1..], seen);
      } else {
        var rest := DedupFrom(s[1..], seen + {s[0].link});
        DedupFromSorted(s[1..], seen + {s[0].link});
        var r := [s[0]] + rest;
        forall i, j | 0 <= i < j < |r| ensures Key(r[i]) >= Key(r[j]) {
          assert r[j] == rest[j - 1];
          assert rest[j - 1] in rest;
          if i > 0 {
            assert r[i] == rest[i - 1];
          }
        }
      }
    }
  }

  /** Distinct links make a sequence exactly as long as its set of links. */
  lemma {:induction false} DistinctLinksCount(s: seq<Article>)
    requires DistinctLinks(s)
    ensures |Links(s)| == |s|
  {
    if s != [] {
      var t := s[1..];
      assert DistinctLinks(t) by {
        assert forall i :: 0 <= i < |t| ==> t[i] == s[i + 1];
      }
      DistinctLinksCount(t);
      assert Links(s) == {s[0].link} + Links(t) by {
        assert forall a :: a in s <==> a == s[0] || a in t;
      }
      assert s[0].link !in Links(t) by {
        forall a | a in t ensures a.link != s[0].link {
          var i :| 0 <= i < |t| && t[i] == a;
          assert s[i + 1] == a;
        }
      }
    }
  }

  // The articles `build_feed` turns into items.

  /** The surviving articles, in feed order. */
  function Survivors(articles: seq<Article>): (v: seq<Article>)
    ensures forall a :: a in v ==> a in articles
  {
    var t := SortByRecency(articles);
    assert forall a :: a in t ==> a in articles by {
      assert forall a :: a in t <==> a in multiset(t);
    }
    Dedup(t)
  }

  /** No two survivors share a link. */
  lemma SurvivorsDistinct(articles: seq<Article>)
    ensures DistinctLinks(Survivors(articles))
  {
    DedupFromLinks(SortByRecency(articles), {});
  }

  /** Every input link survives, and no other. */
  lemma SurvivorsCoverLinks(articles: seq<Article>)
    ensures Links(Survivors(articles)) == Links(articles)
  {
    var t := SortByRecency(articles);
    DedupFromLinks(t, {});
    assert forall a :: a in t <==> a in articles by {
      assert forall a :: a in t <==> a in multiset(t);
    }
  }

  /** There are as many survivors as distinct input links. */
  lemma SurvivorsCount(articles: seq<Article>)
    ensures |Survivors(articles)| == |Links(articles)|
  {
    SurvivorsCoverLinks(articles);
    SurvivorsDistinct(articles);
    DistinctLinksCount(Survivors(articles));
  }

  /** Survivors come newest first. */
  lemma SurvivorsSorted(articles: seq<Article>)
    ensures SortedByRecency(Survivors(articles))
  {
    DedupFromSorted(SortByRecency(articles), {});
  }

  lemma {:induction false} FirstWithIsNewest(t: seq<Article>, b: Article)
    requires SortedByRecency(t) && b in t
    ensures b.link in Links(t) && Key(b) <= Key(FirstWith(t, b.link))
  {
    SortedTail(t);
    if t[0].link != b.link {
      assert b in t[1..] by {
        assert forall a :: a in t <==> a == t[0] || a in t[1..];
      }
      FirstWithIsNewest(t[1..], b);
    } else if b != t[0] {
      assert b in t[1..] by {
        assert forall a :: a in t <==> a == t[0] || a in t[1..];
      }
    }
  }

  lemma {:induction false} FirstWithInGroup(t: seq<Article>, l: string, k: int)
    requires l in Links(t) && Key(FirstWith(t, l)) == k
    ensures l in Links(WithKey(t, k))
    ensures FirstWith(WithKey(t, k), l) == FirstWith(t, l)
  {
    var g := WithKey(t[1..], k);
    var w := WithKey(t, k);
    if t[0].link == l {
      assert w == [t[0]] + g;
      assert w[0] == t[0];
      assert t[0] in w;
    } else {
      var a := FirstWith(t, l);
      assert a == FirstWith(t[1..], l);
      FirstWithInGroup(t[1..], l, k);
      var f := FirstWith(g, l);
      if Key(t[0]) == k {
        assert w == [t[0]] + g;
        assert w[1..] == g;
        assert f in w;
      } else {
        assert w == g;
      }
    }
  }

  /** The survivor for a link is the newest article with that link; among
      equally new ones it is the one listed first in the input. */
  lemma SurvivorIsNewestFirst(articles: seq<Article>, a: Article)
    requires a in Survivors(articles)
    ensures forall b :: b in articles && b.link == a.link ==> Key(b) <= Key(a)
    ensures a.link in Links(WithKey(articles, Key(a)))
    ensures a == FirstWith(WithKey(articles, Key(a)), a.link)
  {
    var t := SortByRecency(articles);
    DedupFromFirstWins(t, {});
    assert a == FirstWith(t, a.link);
    forall b | b in articles && b.link == a.link ensures Key(b) <= Key(a) {
      assert b in multiset(t);
      FirstWithIsNewest(t, b);
    }
    FirstWithInGroup(t, a.link, Key(a));
    SortStable(articles, Key(a));
  }

  // Equally new articles keep their input order through the sort and the pass.

  /** `a` is listed in `y` before `b` is first listed: some occurrence of
      `a` has no occurrence of `b` at or before it. */
  predicate ListedBefore(y: seq<Article>, a: Article, b: Article) {
    exists p :: 0 <= p < |y| && y[p] == a && b !in y[..p + 1]
  }

  /** "Listed before" is an order: it never holds both ways. */
  lemma ListedBeforeAsymmetric(y: seq<Article>, a: Article, b: Article)
    requires ListedBefore(y, a, b)
    ensures !ListedBefore(y, b, a)
  {
    var p :| 0 <= p < |y| && y[p] == a && b !in y[..p + 1];
    forall q | 0 <= q < |y| && y[q] == b ensures a in y[..q + 1] {
      assert p < q;
      assert y[..q + 1][p] == a;
    }
  }

  /** An article other than `b` put in front keeps `a` listed before `b`. */
  lemma ListedBeforeCons(c: Article, y: seq<Article>, a: Article, b: Article)
    requires ListedBefore(y, a, b) && c != b
    ensures ListedBefore([c] + y, a, b)
  {
    var p :| 0 <= p < |y| && y[p] == a && b !in y[..p + 1];
    var z := [c] + y;
    assert z[..p + 2] == [c] + y[..p + 1];
    assert z[p + 1] == a;
  }

  /** The head of a sequence is listed before every other article. */
  lemma ListedBeforeHead(y: seq<Article>, b: Article)
    requires y != [] && b != y[0]
    ensures ListedBefore(y, y[0], b)
  {
    assert y[..1] == [y[0]];
  }

  /** No survivor of the pass has a link seen before it started. */
  lemma DedupFromFresh(s: seq<Article>, seen: set<string>)
    ensures forall b :: b in DedupFrom(s, seen) ==> b.link !in seen
  {
    DedupFromLinks(s, seen);
    var r := DedupFrom(s, seen);
    assert forall b :: b in r ==> b.link in Links(r);
  }

  /** Articles all listed in order in `y` stay so behind an article that is
      none of them. */
  lemma ListedBeforeSkip(c: Article, y: seq<Article>, r: seq<Article>)
    requires forall i, j :: 0 <= i < j < |r| ==> ListedBefore(y, r[i], r[j])
    requires forall b :: b in r ==> b != c
    ensures forall i, j :: 0 <= i < j < |r| ==> ListedBefore([c] + y, r[i], r[j])
  {
    forall i, j | 0 <= i < j < |r| ensures ListedBefore([c] + y, r[i], r[j]) {
      assert r[j] in r;
      ListedBeforeCons(c, y, r[i], r[j]);
    }
  }

  /** The same, with that article kept in front of them. */
  lemma ListedBeforeKeep(c: Article, y: seq<Article>, r: seq<Article>)
    requires forall i, j :: 0 <= i < j < |r| ==> ListedBefore(y, r[i], r[j])
    requires forall b :: b in r ==> b != c
    ensures var w := [c] + r;
      forall i, j :: 0 <= i < j < |w| ==> ListedBefore([c] + y, w[i], w[j])
  {
    var w := [c] + r;
    forall i, j | 0 <= i < j < |w| ensures ListedBefore([c] + y, w[i], w[j]) {
      assert w[j] == r[j - 1] && r[j - 1] in r;
      if i == 0 {
        ListedBeforeHead([c] + y, w[j]);
      } else {
        assert w[i] == r[i - 1];
        ListedBeforeCons(c, y, w[i], w[j]);
      }
    }
  }

  /** The pass keeps its survivors in the order of their first listings. */
  lemma {:induction false} DedupFromListedBefore(s: seq<Article>, seen: set<string>)
    ensures var r := DedupFrom(s, seen);
      forall i, j :: 0 <= i < j < |r| ==> ListedBefore(s, r[i], r[j])
  {
    if s != [] {
      var c, t := s[0], s[1..];
      assert s == [c] + t;
      var seen' := if c.link in seen then seen else seen + {c.link};
      var rest := DedupFrom(t, seen');
      DedupFromListedBefore(t, seen');
      DedupFromFresh(t, seen');
      assert forall b :: b in rest ==> b != c;
      DedupFromCons(c, t, seen);
      if c.link in seen {
        ListedBeforeSkip(c, t, rest);
      } else {
        ListedBeforeKeep(c, t, rest);
      }
    }
  }

  /** Leaving articles out leaves articles out of every key group. */
  lemma {:induction false} WithKeySubsequence(x: seq<Article>, y: seq<Article>, k: int)
    requires Subsequence(x, y)
    ensures Subsequence(WithKey(x, k), WithKey(y, k))
    decreases |y|
  {
    if x != [] {
      assert y != [];
      WithKeyTail(y, k);
      if x[0] == y[0] && Subsequence(x[1..], y[1..]) {
        WithKeySubsequence(x[1..], y[1..], k);
        WithKeyTail(x, k);
        var wx, wy := WithKey(x, k), WithKey(y, k);
        if Key(x[0]) == k {
          assert wx == [x[0]] + WithKey(x[1..], k) && wy == [y[0]] + WithKey(y[1..], k);
          assert wx[0] == wy[0] && wx[1..] == WithKey(x[1..], k) && wy[1..] == WithKey(y[1..], k);
        } else {
          assert wx == WithKey(x[1..], k) && wy == WithKey(y[1..], k);
        }
      } else {
        WithKeySubsequence(x, y[1..], k);
        if Key(y[0]) == k {
          SubsequenceCons(y[0], WithKey(x, k), WithKey(y[1..], k));
        } else {
          assert WithKey(y, k) == WithKey(y[1..], k);
        }
      }
    }
  }

  /** Two articles of one key keep their first-listing order in that
      key's group. */
  lemma {:induction false} WithKeyListedBefore(t: seq<Article>, a: Article, b: Article)
    requires ListedBefore(t, a, b) && Key(a) == Key(b)
    ensures ListedBefore(WithKey(t, Key(a)), a, b)
  {
    var k := Key(a);
    var p :| 0 <= p < |t| && t[p] == a && b !in t[..p + 1];
    WithKeyTail(t, k);
    assert t[..p + 1][0] == t[0];
    if t[0] == a {
      ListedBeforeHead(WithKey(t, k), b);
    } else {
      assert t[..p + 1] == [t[0]] + t[1..][..p];
      assert t[1..][p - 1] == a;
      assert ListedBefore(t[1..], a, b);
      WithKeyListedBefore(t[1..], a, b);
      if Key(t[0]) == k {
        ListedBeforeCons(t[0], WithKey(t[1..], k), a, b);
      } else {
        assert WithKey(t, k) == WithKey(t[1..], k);
      }
    }
  }

  /** The survivors of each key are the input's articles of that key with
      some left out, the rest in input order. */
  lemma SurvivorsStable(articles: seq<Article>, k: int)
    ensures Subsequence(WithKey(Survivors(articles), k), WithKey(articles, k))
  {
    var t := SortByRecency(articles);
    WithKeySubsequence(Dedup(t), t, k);
    SortStable(articles, k);
  }

  /** Of two equally new survivors, the one earlier in the feed was listed
      first in the input, among the articles of their key. */
  lemma SurvivorsKeepInputOrder(articles: seq<Article>)
    ensures var v := Survivors(articles);
      forall i, j :: 0 <= i < j < |v| && Key(v[i]) == Key(v[j]) ==>
        ListedBefore(WithKey(articles, Key(v[i])), v[i], v[j])
  {
    var t := SortByRecency(articles);
    var v := Survivors(articles);
    DedupFromListedBefore(t, {});
    assert v == DedupFrom(t, {});
    forall i, j | 0 <= i < j < |v| && Key(v[i]) == Key(v[j])
      ensures ListedBefore(WithKey(articles, Key(v[i])), v[i], v[j])
    {
      WithKeyListedBefore(t, v[i], v[j]);
      SortStable(articles, Key(v[i]));
    }
  }

  /** A record listed twice around an equally new article: the pass keeps
      its first copy, so it stays ahead, and the other order is excluded. */
  lemma RepeatedListing(x: Article, y: Article)
    requires Key(x) == Key(y) && x.link != y.link
    ensures Survivors([x, y, x]) == [x, y]
    ensures ListedBefore(WithKey([x, y, x], Key(x)), x, y)
    ensures !ListedBefore(WithKey([x, y, x], Key(x)), y, x)
  {
    assert Survivors([x, y, x]) == [x, y] by {
      SortRepeated(x, y);
      DedupRepeated(x, y);
    }
    WithKeyRepeated(x, y);
    assert y != x;
    ListedBeforeHead([x, y, x], y);
    ListedBeforeAsymmetric([x, y, x], x, y);
  }

  lemma WithKeyRepeated(x: Article, y: Article)
    requires Key(x) == Key(y)
    ensures WithKey([x, y, x], Key(x)) == [x, y, x]
  {
    assert [x, y, x][1..] == [y, x] && [y, x][1..] == [x] && [x][1..] == [];
    WithKeyTail([x, y, x], Key(x));
    WithKeyTail([y, x], Key(x));
    WithKeyTail([x], Key(x));
  }

  lemma SortRepeated(x: Article, y: Article)
    requires Key(x) == Key(y)
    ensures SortByRecency([x, y, x]) == [x, y, x]
  {
    assert [x, y, x][1..] == [y, x] && [y, x][1..] == [x] && [x][1..] == [];
    assert SortByRecency([x]) == [x] by {
      InsertFront(x, []);
    }
    assert SortByRecency([y, x]) == [y, x] by {
      InsertFront(y, [x]);
      assert [y] + [x] == [y, x];
    }
    InsertFront(x, [y, x]);
    assert [x] + [y, x] == [x, y, x];
  }

  lemma DedupRepeated(x: Article, y: Article)
    requires x.link != y.link
    ensures Dedup([x, y, x]) == [x, y]
  {
    var none: set<string> := {};
    var both := {x.link} + {y.link};
    assert none + {x.link} == {x.link};
    DedupFromCons(x, [], both);
    assert DedupFrom([x], both) == [];
    DedupFromCons(y, [x], {x.link});
    assert DedupFrom([y, x], {x.link}) == [y];
    DedupFromCons(x, [y, x], none);
    assert [x] + [y, x] == [x, y, x] && [y] + [x] == [y, x];
  }

  // The items of main.py:257-264.

  datatype Guid = Guid(guid: string, isPermaLink: bool)

  /** The fields of an `rfeed.Item` that `build_feed` sets. */
  datatype Item = Item(
    title: string,
    link: string,
    description: string,
    guid: Guid,
    pubDate: Option<DateTime>)

  /** The item for one article: title prefixed with the journal name, the
      link doubling as a permalink GUID. */
  function ToItem(a: Article): Item {
    Item(a.source + ": " + a.title, a.link, a.summary, Guid(a.link, true), a.published)
  }

  function ItemsOf(s: seq<Article>): (r: seq<Item>)
    ensures |r| == |s|
    ensures forall i :: 0 <= i < |s| ==> r[i] == ToItem(s[i])
  {
    if s == [] then [] else [ToItem(s[0])] + ItemsOf(s[1..])
  }

  /** The sort key an item's publication date gives, as for articles. */
  function ItemKey(it: Item): int {
    Instant(EnsureTimezone(it.pubDate))
  }

  /** Mapping to items keeps the set of links. */
  lemma ItemsLinks(s: seq<Article>)
    ensures (set it | it in ItemsOf(s) :: it.link) == Links(s)
  {
    var items := ItemsOf(s);
    forall l | l in Links(s) ensures l in (set it | it in items :: it.link) {
      var a :| a in s && a.link == l;
      var k :| 0 <= k < |s| && s[k] == a;
      assert items[k] in items;
    }
    forall l | l in (set it | it in items :: it.link) ensures l in Links(s) {
      var it :| it in items && it.link == l;
      var k :| 0 <= k < |items| && items[k] == it;
      assert s[k] in s;
    }
  }

  /** Mapping to items keeps links distinct. */
  lemma ItemsDistinct(s: seq<Article>)
    requires DistinctLinks(s)
    ensures forall i, j :: 0 <= i < j < |ItemsOf(s)| ==> ItemsOf(s)[i].link != ItemsOf(s)[j].link
  {
  }

  /** Mapping to items keeps the newest-first order. */
  lemma ItemsSorted(s: seq<Article>)
    requires SortedByRecency(s)
    ensures forall i, j :: 0 <= i < j < |ItemsOf(s)| ==> ItemKey(ItemsOf(s)[i]) >= ItemKey(ItemsOf(s)[j])
  {
    var items := ItemsOf(s);
    forall i, j | 0 <= i < j < |items| ensures ItemKey(items[i]) >= ItemKey(items[j]) {
      assert ItemKey(items[i]) == Key(s[i]) && ItemKey(items[j]) == Key(s[j]);
    }
  }

  /** One step of the pass: what is left of `s` from position `i` on. */
  lemma DedupFromStep(s: seq<Article>, i: int, seen: set<string>)
    requires 0 <= i < |s|
    ensures DedupFrom(s[i..], seen) ==
      if s[i].link in seen then DedupFrom(s[i + 1..], seen)
      else [s[i]] + DedupFrom(s[i + 1..], seen + {s[i].link})
  {
    assert s[i..][0] == s[i] && s[i..][1..] == s[i + 1..];
  }

  lemma ItemsOfCons(a: Article, s: seq<Article>)
    ensures ItemsOf([a] + s) == [ToItem(a)] + ItemsOf(s)
  {
    assert ([a] + s)[1..] == s;
  }

  /** Equally new items come in the input order of their articles. */
  lemma ItemsKeepInputOrder(articles: seq<Article>)
    ensures var v := Survivors(articles); var items := ItemsOf(v);
      forall i, j :: 0 <= i < j < |items| && ItemKey(items[i]) == ItemKey(items[j]) ==>
        ListedBefore(WithKey(articles, ItemKey(items[i])), v[i], v[j])
  {
    var v := Survivors(articles);
    var items := ItemsOf(v);
    SurvivorsKeepInputOrder(articles);
    assert forall i :: 0 <= i < |items| ==> ItemKey(items[i]) == Key(v[i]);
  }

  /** The feed's items: one per distinct input link, links distinct,
      newest first, and equally new ones in input order. */
  lemma FeedItems(articles: seq<Article>)
    ensures |ItemsOf(Survivors(articles))| == |Links(articles)|
    ensures var items := ItemsOf(Survivors(articles));
      forall i, j :: 0 <= i < j < |items| ==> items[i].link != items[j].link
    ensures (set it | it in ItemsOf(Survivors(articles)) :: it.link) == Links(articles)
    ensures var items := ItemsOf(Survivors(articles));
      forall i, j :: 0 <= i < j < |items| ==> ItemKey(items[i]) >= ItemKey(items[j])
    ensures var v := Survivors(articles); var items := ItemsOf(v);
      forall i, j :: 0 <= i < j < |items| && ItemKey(items[i]) == ItemKey(items[j]) ==>
        ListedBefore(WithKey(articles, ItemKey(items[i])), v[i], v[j])
  {
    ItemsKeepInputOrder(articles);
    SurvivorsDistinct(articles);
    SurvivorsCoverLinks(articles);
    SurvivorsCount(articles);
    SurvivorsSorted(articles);
    ItemsLinks(Survivors(articles));
    ItemsDistinct(Survivors(articles));
    ItemsSorted(Survivors(articles));
  }

  /** The items the pass produces from position `i` on, one step unrolled. */
  lemma PassStep(s: seq<Article>, i: int, seen: set<string>)
    requires 0 <= i < |s|
    ensures s[i].link in seen ==>
      ItemsOf(DedupFrom(s[i..], seen)) == ItemsOf(DedupFrom(s[i + 1..], seen))
    ensures s[i].link !in seen ==>
      ItemsOf(DedupFrom(s[i..], seen)) == [ToItem(s[i])] + ItemsOf(DedupFrom(s[i + 1..], seen + {s[i].link}))
  {
    DedupFromStep(s, i, seen);
    if s[i].link !in seen {
      ItemsOfCons(s[i], DedupFrom(s[i + 1..], seen + {s[i].link}));
    }
  }

  /** The loop of main.py:253-264 over an already sorted list: a set of
      seen links, and an item appended for each article whose link is new. */
  method ItemsPass(sorted: seq<Article>) returns (items: seq<Item>)
    ensures items == ItemsOf(Dedup(sorted))
  {
    var seen: set<string> := {};
    items := [];
    var i := 0;
    while i < |sorted|
      invariant 0 <= i <= |sorted|
      invariant ItemsOf(Dedup(sorted)) == items + ItemsOf(DedupFrom(sorted[i..], seen))
    {
      var a := sorted[i];
      PassStep(sorted, i, seen);
      if a.link !in seen {
        seen := seen + {a.link};
        items := items + [ToItem(a)];
      }
      i := i + 1;
    }
    assert sorted[i..] == [];
  }

  /** The item list `build_feed` hands to `rfeed`: sort, then the pass. */
  method BuildItems(articles: seq<Article>) returns (items: seq<Item>)
    ensures items == ItemsOf(Survivors(articles))
    ensures |items| == |Links(articles)|
    ensures forall i, j :: 0 <= i < j < |items| ==> items[i].link != items[j].link
    ensures (set it | it in items :: it.link) == Links(articles)
    ensures forall i, j :: 0 <= i < j < |items| ==> ItemKey(items[i]) >= ItemKey(items[j])
    ensures forall i, j :: 0 <= i < j < |items| && ItemKey(items[i]) == ItemKey(items[j]) ==>
      ListedBefore(WithKey(articles, ItemKey(items[i])), Survivors(articles)[i], Survivors(articles)[j])
    ensures var v := Survivors(articles);
      forall i :: 0 <= i < |items| ==>
        && items[i].title == v[i].source + ": " + v[i].title
        && items[i].link == v[i].link
        && items[i].description == v[i].summary
        && items[i].guid == Guid(v[i].link, true)
        && items[i].pubDate == v[i].published
  {
    items := ItemsPass(SortByRecency(articles));
    FeedItems(articles);
  }

  /** Three articles where the second is newest and the third oldest sort
      as second, first, third. */
  lemma SortThree(a: Article, b: Article, c: Article)
    requires Key(b) > Key(a) > Key(c)
    ensures SortByRecency([a, b, c]) == [b, a, c]
  {
    assert [a, b, c][1..] == [b, c];
    SortTwo(b, c);
    InsertSecond(a, b, c);
  }

  lemma SortTwo(b: Article, c: Article)
    requires Key(b) >= Key(c)
    ensures SortByRecency([b, c]) == [b, c]
  {
    assert [b, c][1..] == [c] && [c][1..] == [];
    assert SortByRecency([c]) == [c] by {
      InsertFront(c, []);
    }
    InsertFront(b, [c]);
  }

  lemma InsertSecond(a: Article, b: Article, c: Article)
    requires Key(b) > Key(a) >= Key(c)
    ensures SortedByRecency([b, c]) && Insert(a, [b, c]) == [b, a, c]
  {
    SortedPair(b, c);
    InsertPastHead(a, b, c);
    InsertSingle(a, c);
    assert [b] + [a, c] == [b, a, c];
  }

  lemma InsertPastHead(a: Article, b: Article, c: Article)
    requires Key(b) > Key(a) >= Key(c)
    ensures SortedByRecency([b, c]) && Insert(a, [b, c]) == [b] + Insert(a, [c])
  {
    SortedPair(b, c);
    assert [b, c][1..] == [c];
    InsertPast(a, [b, c]);
  }

  lemma InsertSingle(a: Article, c: Article)
    requires Key(a) >= Key(c)
    ensures Insert(a, [c]) == [a, c]
  {
    InsertFront(a, [c]);
    assert [a] + [c] == [a, c];
  }

  lemma SortedPair(b: Article, c: Article)
    requires Key(b) >= Key(c)
    ensures SortedByRecency([b, c])
  {
    ConsSorted(b, [c]);
    assert [b] + [c] == [b, c];
  }

  /** Of two adjacent articles with one link, the pass keeps the first. */
  lemma DedupThree(a: Article, b: Article, c: Article)
    requires a.link == b.link && c.link != a.link
    ensures Dedup([a, b, c]) == [a, c]
  {
    assert [a, b, c][1..] == [b, c] && [b, c][1..] == [c] && [c][1..] == [];
    assert DedupFrom([c], {a.link}) == [c];
    assert DedupFrom([b, c], {a.link}) == [c];
    var none: set<string> := {};
    assert none + {a.link} == {a.link};
    assert DedupFrom([a, b, c], {}) == [a] + DedupFrom([b, c], {a.link});
  }

  /** Two journals list the same article: the newer copy wins, and the
      undated article comes last. */
  lemma DuplicateAcrossJournals()
    ensures
      var newer := Article("A", "https://x/1", "", Some(DateTime(19724 * MicrosPerDay, Some(0))), "Cell");
      var older := Article("A", "https://x/1", "", Some(DateTime(19723 * MicrosPerDay, Some(0))), "Nature");
      var undated := Article("B", "https://x/2", "", None, "Nature");
      Survivors([older, newer, undated]) == [newer, undated]
  {
    var newer := Article("A", "https://x/1", "", Some(DateTime(19724 * MicrosPerDay, Some(0))), "Cell");
    var older := Article("A", "https://x/1", "", Some(DateTime(19723 * MicrosPerDay, Some(0))), "Nature");
    var undated := Article("B", "https://x/2", "", None, "Nature");
    assert Key(undated) == 0;
    assert Key(newer) == 19724 * MicrosPerDay;
    assert Key(older) == 19723 * MicrosPerDay;
    SortThree(older, newer, undated);
    assert "https://x/2" != "https://x/1" by {
      assert "https://x/2"[10] != "https://x/1"[10];
    }
    DedupThree(newer, older, undated);
  }
}
