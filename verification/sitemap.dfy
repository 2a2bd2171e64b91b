/**
 * The link pipeline of the site-map builder: the hrefs of one fetched page are
 * made absolute against the page's base URL (scheme and host) and then filtered
 * down to the links that lie under that base.
 *
 * The HTML tokenizer is not part of this model: its output, the `href` values of
 * the page's anchors in document order, is the input `hs`. The network fetch is
 * not part of it either: the base URL derived from the final response URL is the
 * input `base`.
 */
module SiteMap {

  // ---------------------------------------------------------------------------
  // Prefix test and the keep-predicate built from it
  // ---------------------------------------------------------------------------

  /** `strings.HasPrefix(s, prefix)`: `s` is long enough and begins with `prefix`. */
  predicate StartsWith(s: string, prefix: string)
  {
    |prefix| <= |s| && s[..|prefix|] == prefix
  }

  /** `hasPrefix(pfx)`: the closure that keeps exactly the strings beginning with `pfx`. */
  function HasPrefix(pfx: string): (keep: string -> bool)
    ensures forall s :: keep(s) <==> pfx <= s
  {
    s => StartsWith(s, pfx)
  }

  // ---------------------------------------------------------------------------
  // hrefs: classification of the raw href values
  // ---------------------------------------------------------------------------

  /** What the `switch` of `hrefs` appends to the result for one href value. */
  function Resolve(href: string, base: string): seq<string>
  {
    if StartsWith(href, "/") then [base + href]
    else if StartsWith(href, "http") then [href]
    else []
  }

  /** An href that some case of the `switch` accepts. */
  predicate IsHref(href: string)
  {
    StartsWith(href, "/") || StartsWith(href, "http")
  }

  /** The URL an accepted href stands for: root-relative ones are put under `base`. */
  function Absolute(href: string, base: string): string
  {
    if StartsWith(href, "/") then base + href else href
  }

  /** The result of `hrefs` on the hrefs `hs`, as a function of its input. */
  function HrefsOf(hs: seq<string>, base: string): (r: seq<string>)
    ensures |r| <= |hs|
  {
    if hs == [] then [] else Resolve(hs[0], base) + HrefsOf(hs[1..], base)
  }

  /** `hrefs`: one pass over the anchors, appending to `ret` case by case. */
  method Hrefs(hs: seq<string>, base: string) returns (ret: seq<string>)
    ensures ret == HrefsOf(hs, base)
  {
    ret := [];
    for i := 0 to |hs|
      invariant ret == HrefsOf(hs[..i], base)
    {
      var l := hs[i];
      if StartsWith(l, "/") {
        ret := ret + [base + l];
      } else if StartsWith(l, "http") {
        ret := ret + [l];
      }
      HrefsOfAppend(hs[..i], [l], base);
      assert hs[..i + 1] == hs[..i] + [l];
    }
    assert hs[..|hs|] == hs;
  }

  // ---------------------------------------------------------------------------
  // filterLinks
  // ---------------------------------------------------------------------------

  /** The result of `filterLinks(links, keep)`, as a function of its input. */
  function Filtered(links: seq<string>, keep: string -> bool): (r: seq<string>)
    ensures |r| <= |links|
    ensures forall x :: x in r <==> x in links && keep(x)
  {
    if links == [] then []
    else (if keep(links[0]) then [links[0]] else []) + Filtered(links[1..], keep)
  }

  /** `filterLinks`: one pass over `links`, appending the ones `keepFn` accepts. */
  method FilterLinks(links: seq<string>, keepFn: string -> bool) returns (ret: seq<string>)
    ensures ret == Filtered(links, keepFn)
  {
    ret := [];
    for i := 0 to |links|
      invariant ret == Filtered(links[..i], keepFn)
    {
      var l := links[i];
      if keepFn(l) {
        ret := ret + [l];
      }
      FilteredAppend(links[..i], [l], keepFn);
      assert links[..i + 1] == links[..i] + [l];
    }
    assert links[..|links|] == links;
  }

  // ---------------------------------------------------------------------------
  // The composition in `get`
  // ---------------------------------------------------------------------------

  /** The pages `get` returns: hrefs made absolute, then kept when they lie under `base`. */
  function PagesOf(hs: seq<string>, base: string): (r: seq<string>)
    ensures |r| <= |hs|
    ensures forall p :: p in r ==> StartsWith(p, base)
  {
    Filtered(HrefsOf(hs, base), HasPrefix(base))
  }

  /** Line 44 of `get`, with the response body already parsed into `hs`. */
  method Get(hs: seq<string>, base: string) returns (pages: seq<string>)
    ensures pages == PagesOf(hs, base)
    ensures forall p :: p in pages ==> base <= p
  {
    var links := Hrefs(hs, base);
    pages := FilterLinks(links, HasPrefix(base));
  }

  // ---------------------------------------------------------------------------
  // Selections: a result described by the input positions it keeps
  // ---------------------------------------------------------------------------

  /**
   * `idx` lists, in increasing order and each once, exactly the positions of
   * `xs` whose element `keep` accepts.
   */
  ghost predicate Selection(xs: seq<string>, keep: string -> bool, idx: seq<nat>)
  {
    && (forall k :: 0 <= k < |idx| ==> idx[k] < |xs|)
    && (forall k, l :: 0 <= k < l < |idx| ==> idx[k] < idx[l])
    && (forall i :: 0 <= i < |xs| ==> (keep(xs[i]) <==> i in idx))
  }

  /** Every position moved one place to the right. */
  function Inc(idx: seq<nat>): (r: seq<nat>)
    ensures |r| == |idx|
    ensures forall k :: 0 <= k < |r| ==> r[k] == idx[k] + 1
  {
    seq(|idx|, k requires 0 <= k < |idx| => idx[k] + 1)
  }

  /** The positions of `xs[1..]` shifted by one, preceded by 0 when `xs[0]` is kept. */
  function Shifted(first: bool, idx: seq<nat>): seq<nat>
  {
    (if first then [0] else []) + Inc(idx)
  }

  lemma IncMembers(idx: seq<nat>, n: nat)
    ensures n in Inc(idx) <==> n > 0 && n - 1 in idx
  {
  }

  lemma ShiftedSelection(xs: seq<string>, keep: string -> bool, idx: seq<nat>)
    requires xs != []
    requires Selection(xs[1..], keep, idx)
    ensures Selection(xs, keep, Shifted(keep(xs[0]), idx))
  {
    var head: seq<nat> := if keep(xs[0]) then [0] else [];
    var tail := Inc(idx);
    var r := head + tail;
    forall k | 0 <= k < |r|
      ensures r[k] < |xs|
    {
      if k >= |head| {
        assert r[k] == tail[k - |head|];
      }
    }
    forall k, l | 0 <= k < l < |r|
      ensures r[k] < r[l]
    {
      if k >= |head| {
        assert r[k] == tail[k - |head|] && r[l] == tail[l - |head|];
      } else {
        assert r[l] == tail[l - |head|];
      }
    }
    forall i | 0 <= i < |xs|
      ensures keep(xs[i]) <==> i in r
    {
      IncMembers(idx, i);
      if i > 0 {
        assert xs[i] == xs[1..][i - 1];
      }
    }
  }

  /** Two increasing index sequences with the same members are equal. */
  lemma {:induction false} IncreasingUnique(a: seq<nat>, b: seq<nat>)
    requires forall k, l :: 0 <= k < l < |a| ==> a[k] < a[l]
    requires forall k, l :: 0 <= k < l < |b| ==> b[k] < b[l]
    requires forall n :: n in a <==> n in b
    ensures a == b
  {
    if a != [] {
      assert a[0] in b;
    }
    if b != [] {
      assert b[0] in a;
    }
    if a != [] {
      assert a[0] == b[0];
      forall n
        ensures n in a[1..] <==> n in b[1..]
      {
        if n in a[1..] {
          var k :| 1 <= k < |a| && a[k] == n;
          assert n in b;
        }
        if n in b[1..] {
          var k :| 1 <= k < |b| && b[k] == n;
          assert n in a;
        }
      }
      IncreasingUnique(a[1..], b[1..]);
      assert a == [a[0]] + a[1..] && b == [b[0]] + b[1..];
    }
  }

  /** A selection is determined by `xs` and `keep`. */
  lemma SelectionUnique(xs: seq<string>, keep: string -> bool, idx1: seq<nat>, idx2: seq<nat>)
    requires Selection(xs, keep, idx1) && Selection(xs, keep, idx2)
    ensures idx1 == idx2
  {
    forall n
      ensures n in idx1 <==> n in idx2
    {
      if n in idx1 {
        var k :| 0 <= k < |idx1| && idx1[k] == n;
      }
      if n in idx2 {
        var k :| 0 <= k < |idx2| && idx2[k] == n;
      }
    }
    IncreasingUnique(idx1, idx2);
  }

  // ---------------------------------------------------------------------------
  // Properties of filterLinks
  // ---------------------------------------------------------------------------

  lemma {:induction false} FilteredAppend(a: seq<string>, b: seq<string>, keep: string -> bool)
    ensures Filtered(a + b, keep) == Filtered(a, keep) + Filtered(b, keep)
  {
    if a == [] {
      assert a + b == b;
    } else {
      assert (a + b)[1..] == a[1..] + b;
      FilteredAppend(a[1..], b, keep);
    }
  }

  /** The result of `filterLinks` is the elements `keep` accepts, in their original order. */
  lemma {:induction false} FilteredSelects(links: seq<string>, keep: string -> bool) returns (idx: seq<nat>)
    ensures Selection(links, keep, idx)
    ensures |idx| == |Filtered(links, keep)|
    ensures forall k :: 0 <= k < |idx| ==> Filtered(links, keep)[k] == links[idx[k]]
  {
    if links == [] {
      idx := [];
    } else {
      var rest := FilteredSelects(links[1..], keep);
      ShiftedSelection(links, keep, rest);
      idx := Shifted(keep(links[0]), rest);
      var d := if keep(links[0]) then 1 else 0;
      var r := Filtered(links, keep);
      assert r == (if keep(links[0]) then [links[0]] else []) + Filtered(links[1..], keep);
      forall k | 0 <= k < |idx|
        ensures r[k] == links[idx[k]]
      {
        if k >= d {
          assert r[k] == Filtered(links[1..], keep)[k - d];
          assert idx[k] == rest[k - d] + 1;
        }
      }
    }
  }

  /** Any sequence selected from `links` by `keep` is what `filterLinks` returns. */
  lemma FilteredExactly(links: seq<string>, keep: string -> bool, r: seq<string>, idx: seq<nat>)
    requires Selection(links, keep, idx)
    requires |r| == |idx|
    requires forall k :: 0 <= k < |idx| ==> r[k] == links[idx[k]]
    ensures r == Filtered(links, keep)
  {
    var idx' := FilteredSelects(links, keep);
    SelectionUnique(links, keep, idx, idx');
  }

  /** Filtering twice with the same predicate is filtering once. */
  lemma {:induction false} FilteredIdempotent(links: seq<string>, keep: string -> bool)
    ensures Filtered(Filtered(links, keep), keep) == Filtered(links, keep)
  {
    if links != [] {
      var head := if keep(links[0]) then [links[0]] else [];
      FilteredAppend(head, Filtered(links[1..], keep), keep);
      FilteredIdempotent(links[1..], keep);
    }
  }

  /** A predicate that accepts everything leaves the links unchanged. */
  lemma {:induction false} FilteredKeepAll(links: seq<string>, keep: string -> bool)
    requires forall s :: keep(s)
    ensures Filtered(links, keep) == links
  {
    if links != [] {
      FilteredKeepAll(links[1..], keep);
    }
  }

  // ---------------------------------------------------------------------------
  // Properties of hrefs
  // ---------------------------------------------------------------------------

  lemma {:induction false} HrefsOfAppend(a: seq<string>, b: seq<string>, base: string)
    ensures HrefsOf(a + b, base) == HrefsOf(a, base) + HrefsOf(b, base)
  {
    if a == [] {
      assert a + b == b;
    } else {
      assert (a + b)[1..] == a[1..] + b;
      HrefsOfAppend(a[1..], b, base);
    }
  }

  /**
   * `hrefs` keeps exactly the hrefs starting with "/" or "http", in document
   * order and without merging duplicates; a root-relative one becomes
   * `base + href`, any other kept one is copied unchanged.
   */
  lemma {:induction false} HrefsOfSelects(hs: seq<string>, base: string) returns (idx: seq<nat>)
    ensures Selection(hs, IsHref, idx)
    ensures |idx| == |HrefsOf(hs, base)|
    ensures forall k :: 0 <= k < |idx| ==> HrefsOf(hs, base)[k] == Absolute(hs[idx[k]], base)
  {
    if hs == [] {
      idx := [];
    } else {
      var rest := HrefsOfSelects(hs[1..], base);
      ShiftedSelection(hs, IsHref, rest);
      var head := Resolve(hs[0], base);
      var tail := HrefsOf(hs[1..], base);
      assert head == if IsHref(hs[0]) then [Absolute(hs[0], base)] else [];
      var first: seq<nat> := if IsHref(hs[0]) then [0] else [];
      idx := Shifted(IsHref(hs[0]), rest);
      assert idx == first + Inc(rest) && |first| == |head|;
      assert HrefsOf(hs, base) == head + tail;
      forall k | 0 <= k < |idx|
        ensures (head + tail)[k] == Absolute(hs[idx[k]], base)
      {
        if k < |head| {
          assert idx[k] == 0;
        } else {
          var j := k - |head|;
          assert (head + tail)[k] == tail[j];
          assert idx[k] == (first + Inc(rest))[k] == Inc(rest)[j];
          assert hs[idx[k]] == hs[1..][rest[j]];
        }
      }
    }
  }

  /** A kept href contributes its absolute form to the result of `hrefs`. */
  lemma HrefsOfContains(hs: seq<string>, base: string, i: nat)
    requires i < |hs| && IsHref(hs[i])
    ensures Absolute(hs[i], base) in HrefsOf(hs, base)
  {
    var idx := HrefsOfSelects(hs, base);
    var k :| 0 <= k < |idx| && idx[k] == i;
    assert HrefsOf(hs, base)[k] == Absolute(hs[i], base);
  }

  /** Equal accepted hrefs give equal, separate entries: nothing is deduplicated. */
  lemma KeepsDuplicates(h: string, base: string)
    requires IsHref(h)
    ensures HrefsOf([h, h], base) == [Absolute(h, base), Absolute(h, base)]
  {
  }

  // ---------------------------------------------------------------------------
  // Properties of the composition in `get`
  // ---------------------------------------------------------------------------

  /** The hrefs whose absolute form lies under `base`. */
  function SameSite(base: string): (keep: string -> bool)
    ensures forall h :: keep(h) <==> IsHref(h) && base <= Absolute(h, base)
  {
    h => StartsWith(h, "/") || (StartsWith(h, "http") && StartsWith(h, base))
  }

  /**
   * Filtering the absolute links is the same as first filtering the raw hrefs
   * with `SameSite(base)` and then running `hrefs`.
   */
  lemma {:induction false} PagesOfPushdown(hs: seq<string>, base: string)
    ensures PagesOf(hs, base) == HrefsOf(Filtered(hs, SameSite(base)), base)
  {
    if hs != [] {
      var h := hs[0];
      var keep := SameSite(base);
      var head := if keep(h) then [h] else [];
      assert base <= base + h;
      FilteredAppend(Resolve(h, base), HrefsOf(hs[1..], base), HasPrefix(base));
      assert Filtered(Resolve(h, base), HasPrefix(base)) == HrefsOf(head, base);
      HrefsOfAppend(head, Filtered(hs[1..], keep), base);
      PagesOfPushdown(hs[1..], base);
    }
  }

  /** Every root-relative href reaches the output as `base + href`. */
  lemma RootRelativeSurvives(hs: seq<string>, base: string, i: nat)
    requires i < |hs| && StartsWith(hs[i], "/")
    ensures base + hs[i] in PagesOf(hs, base)
  {
    HrefsOfContains(hs, base, i);
    assert base <= base + hs[i];
  }

  /** An "http..." href that is not root-relative is output exactly when it starts with `base`. */
  lemma AbsoluteSurvivesIff(hs: seq<string>, base: string, i: nat)
    requires i < |hs| && !StartsWith(hs[i], "/") && StartsWith(hs[i], "http")
    ensures hs[i] in PagesOf(hs, base) <==> StartsWith(hs[i], base)
  {
    HrefsOfContains(hs, base, i);
  }

  /**
   * How single hrefs fare in `hrefs`: the test is on "http" and not on a
   * scheme, "//" counts as root-relative, and fragments, mail links, relative
   * paths and the empty string are dropped.
   */
  lemma ResolveSamples(base: string)
    ensures Resolve("httpfoo", base) == ["httpfoo"]
    ensures Resolve("//cdn.x", base) == [base + "//cdn.x"]
    ensures Resolve("", base) == [] && Resolve("#top", base) == []
    ensures Resolve("mailto:x", base) == [] && Resolve("about.html", base) == []
  {
    assert "httpfoo"[..4] == "http";
    assert "//cdn.x"[..1] == "/";
    assert !IsHref("#top") by {
      assert "#top"[..1][0] == '#' && "#top"[..4][0] == '#';
    }
    assert !IsHref("mailto:x") by {
      assert "mailto:x"[..1][0] == 'm' && "mailto:x"[..4][0] == 'm';
    }
    assert !IsHref("about.html") by {
      assert "about.html"[..1][0] == 'a' && "about.html"[..4][0] == 'a';
    }
  }

  /** The same-site test is on the raw string: a longer host that extends the base passes. */
  lemma PrefixIsNotHost()
    ensures HasPrefix("https://example.com")("https://example.com.evil.org/")
  {
  }

  /** `hrefs` on a sample page with base "https://example.com". */
  lemma SampleHrefs()
    ensures HrefsOf(["/about", "https://example.com/about", "https://other.com/x", "#top"],
                    "https://example.com")
         == ["https://example.com/about", "https://example.com/about", "https://other.com/x"]
  {
    var base := "https://example.com";
    var a, b, c, d := "/about", "https://example.com/about", "https://other.com/x", "#top";
    assert Resolve(a, base) == [b] by {
      assert a[..1] == "/";
      assert base + a == b;
    }
    assert Resolve(b, base) == [b] by {
      assert b[0] == 'h' && b[..4] == "http";
    }
    assert Resolve(c, base) == [c] by {
      assert c[0] == 'h' && c[..4] == "http";
    }
    assert Resolve(d, base) == [] by {
      assert d[0] == '#';
    }
    HrefsOfAppend([a, b], [c, d], base);
    HrefsOfAppend([a], [b], base);
    HrefsOfAppend([c], [d], base);
    assert [a, b, c, d] == [a, b] + [c, d] && [a, b] == [a] + [b] && [c, d] == [c] + [d];
  }

  /**
   * A page linking "/about", "https://example.com/about", "https://other.com/x"
   * and "#top", with base "https://example.com", yields the same-site page
   * twice (no deduplication) and nothing else.
   */
  lemma SamplePage()
    ensures PagesOf(["/about", "https://example.com/about", "https://other.com/x", "#top"],
                    "https://example.com")
         == ["https://example.com/about", "https://example.com/about"]
  {
    var base := "https://example.com";
    var b, c := "https://example.com/about", "https://other.com/x";
    SampleHrefs();
    assert c[..|base|][8] != base[8];
    assert b[..|base|] == base;
    assert [b, b, c] == [b] + [b] + [c];
    FilteredAppend([b] + [b], [c], HasPrefix(base));
    FilteredAppend([b], [b], HasPrefix(base));
  }
}
