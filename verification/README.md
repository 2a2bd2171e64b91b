# siteMapBuilder link pipeline, in Dafny

The site-map builder fetches one web page, takes the `href` of every anchor
in document order, and turns the hrefs into absolute URLs. It then keeps only
those that lie under the page's base URL, which is the scheme and host of the
final response URL. This project models that pipeline (`hrefs`,
`filterLinks`, `hasPrefix` and the composition in `get`) in one module,
`SiteMap` (`sitemap.dfy`).

- `hrefs` goes through the hrefs once. An href starting with `/` is appended
  as `base + href`. Otherwise an href starting with `http` is appended
  unchanged. Anything else is dropped. The model has two parts: the function
  `HrefsOf` and the method `Hrefs`. The method has the same loop and the
  same `switch` as the Go code.
- `filterLinks` is an order-preserving filter: the function `Filtered` and
  the loop method `FilterLinks`.
- `hasPrefix(pfx)` is the closure `s => strings.HasPrefix(s, pfx)`, modelled
  by `HasPrefix`.
- `get` returns `filterLinks(hrefs(body, base), hasPrefix(base))`. This is
  the function `PagesOf` and the method `Get`.

The results are described by position. The ghost predicate `Selection(xs,
keep, idx)` says that `idx` lists, in increasing order, exactly the
positions of `xs` that `keep` accepts. `FilteredSelects` and
`HrefsOfSelects` give such an `idx` for each result and say which input
element each output element came from. `FilteredExactly` shows that the
description determines the result.

The model follows the code as written, including these four behaviours:
- the scheme test is on `"http"`, so `"httpfoo"` is kept;
- `"//cdn.x"` is treated as root-relative and becomes `base + "//cdn.x"`;
- nothing is deduplicated and fragments are not stripped;
- the same-site test is a raw string prefix, so
  `"https://example.com.evil.org/"` passes for base `"https://example.com"`.

The comments at the top of `main.go` also mention a breadth-first crawl and
an XML sitemap, and describe the filter as removing links that are "not on
the same webpage". Neither the crawl nor the sitemap is implemented. The
model follows the code, not that description.

## Model

| member | source | states |
|---|---|---|
| `SiteMap.HasPrefix` | main.go:73-77 | the returned closure accepts a string exactly when `pfx` is a prefix of it |
| `SiteMap.HrefsOf` | main.go:47-60 | `hrefs` never returns more links than there are anchors |
| `SiteMap.Hrefs` | main.go:47-60 | the loop with its `switch` returns exactly `HrefsOf(hs, base)` |
| `SiteMap.HrefsOfAppend` | main.go:50-58 | `hrefs` handles each anchor on its own: the result for `a + b` is the result for `a` followed by the result for `b` |
| `SiteMap.HrefsOfSelects` | main.go:50-58 | the output keeps exactly the hrefs starting with `/` or `http`, in document order and one entry per kept href; a `/` href becomes `base + href` and an `http` href is copied unchanged |
| `SiteMap.HrefsOfContains` | main.go:51-57 | every href starting with `/` or `http` contributes its absolute form to the output |
| `SiteMap.KeepsDuplicates` | main.go:50-58 | two equal accepted hrefs give two equal entries, so nothing is deduplicated |
| `SiteMap.ResolveSamples` | main.go:51-57 | `"httpfoo"` is kept as it is; `"//cdn.x"` becomes `base + "//cdn.x"`; `""`, `"#top"`, `"mailto:x"` and `"about.html"` are dropped |
| `SiteMap.SampleHrefs` | main.go:47-60 | on `/about`, `https://example.com/about`, `https://other.com/x`, `#top` with base `https://example.com`, `hrefs` returns the first three links in absolute form and drops `#top` |
| `SiteMap.Filtered` | main.go:62-71 | the result is no longer than the input and contains exactly the input strings that `keep` accepts |
| `SiteMap.FilterLinks` | main.go:62-71 | the loop returns exactly `Filtered(links, keepFn)` |
| `SiteMap.FilteredAppend` | main.go:64-69 | filtering `a + b` is filtering `a` and then `b`, and concatenating the results |
| `SiteMap.FilteredSelects` | main.go:62-71 | the output is the accepted elements at increasing input positions, so it is a subsequence in the original order with every accepted position present |
| `SiteMap.FilteredExactly` | main.go:62-71 | any sequence that takes the accepted elements in order is equal to the result of `filterLinks`, so the description in `FilteredSelects` is exact |
| `SiteMap.FilteredIdempotent` | main.go:62-71 | filtering the output again with the same predicate changes nothing |
| `SiteMap.FilteredKeepAll` | main.go:62-71 | with a predicate that accepts everything, `filterLinks` returns its input unchanged |
| `SiteMap.PagesOf` | main.go:44 | every page `get` returns starts with `base`, and there are no more pages than anchors |
| `SiteMap.Get` | main.go:44 | line 44 returns `PagesOf(hs, base)`, so every returned page has `base` as a prefix |
| `SiteMap.SameSite` | main.go:44 | the raw hrefs that reach the output are the ones `hrefs` accepts and whose absolute form starts with `base` |
| `SiteMap.PagesOfPushdown` | main.go:44 | the output of `get` equals `hrefs` applied to the raw hrefs filtered by `SameSite(base)`: the pages are the surviving hrefs, in document order |
| `SiteMap.RootRelativeSurvives` | main.go:44 | every href starting with `/` reaches the output as `base + href` |
| `SiteMap.AbsoluteSurvivesIff` | main.go:44 | an href starting with `http` but not `/` is in the output exactly when it starts with `base` |
| `SiteMap.PrefixIsNotHost` | main.go:73-77 | `"https://example.com.evil.org/"` passes the same-site test for base `"https://example.com"` |
| `SiteMap.SamplePage` | main.go:44 | for the sample page above, `get` returns `https://example.com/about` twice and nothing else |

## Left out

- `main`, flag parsing and printing of the result (main.go:22-30): command-line input and output.
- `http.Get`, redirect following, closing the body, and the `panic` when the fetch fails (main.go:33-37): network input and output. The page is given as its list of href values.
- Building `base` with `url.URL{Scheme, Host}.String()` (main.go:38-43): a library call. `base` is an input string and may be any string.
- `link.Parse` (main.go:48): an external HTML tokenizer whose source is not part of this model. Its output, the anchors' href values in document order, is the input `hs`. Its error is discarded in the source, so a parse failure has the same effect as a shorter anchor list.
- The breadth-first crawl, visited set, depth limit and XML sitemap (main.go:14-21): described only in a comment and not implemented.
- Go strings are byte sequences and the model uses sequences of characters. `strings.HasPrefix` is modelled as a prefix test on those sequences. For valid UTF-8 text the two give the same answers.
- Go returns a nil slice when nothing is appended; the model returns the empty sequence, which behaves the same for every caller in the source.
