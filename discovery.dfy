/** The discovery route (`POST /api/scrape`): it normalises the requested
    page addresses, fetches each page once, merges their images in request
    order with duplicates of a full-size address dropped and at most
    MAX_IMAGES kept, and returns one window of PAGE_SIZE images. */
module Discovery {
  import opened Js
  import opened Resolver
  import opened Extractor

  const PAGE_SIZE: nat := 200
  const MAX_IMAGES: nat := 10000
  /** Only the first five non-blank addresses are used. */
  const MAX_PAGES: nat := 5

  /** `fetchHtml(target)` followed by `cheerio.load`: the `img` elements of
      the page, or None when the request fails, answers with a non-2xx
      status, times out or returns an empty document. */
  type Fetcher = Url -> Option<seq<Img>>

  /** The two body fields the handler reads; None stands for `undefined`
      (a missing field, or a body that is not a JSON object). */
  datatype Payload = Payload(urls: Option<Json>, url: Option<Json>)

  /** The number `Number(searchParams.get("page") ?? "1")` yields, restricted
      to integers, the infinities and NaN. */
  datatype PageNumber = Finite(n: int) | PosInfinity | NegInfinity | NaN

  datatype ScrapeReply =
    | BadRequest(error: string)
    | Listing(images: seq<ImageItem>, hasMore: bool, total: nat)

  // ---------------------------------------------------------------------------
  // Input normalisation

  predicate Nullish(v: Option<Json>)
  {
    v.None? || v.value == JNull
  }

  /** `payload.urls ?? payload.url`. */
  function UrlsInput(p: Payload): (r: Option<Json>)
    ensures !Nullish(p.urls) ==> r == p.urls
    ensures Nullish(p.urls) ==> r == p.url
  {
    if !Nullish(p.urls) then p.urls else p.url
  }

  /** An array is used as it is, a string becomes a one-element list, and
      anything else an empty list. */
  function UrlList(input: Option<Json>): (r: seq<Json>)
    ensures input.Some? && input.value.JArray? ==> r == input.value.items
    ensures input.Some? && input.value.JString? ==> r == [input.value]
    ensures input.None? || !(input.value.JArray? || input.value.JString?) ==> r == []
  {
    match input
    case Some(JArray(items)) => items
    case Some(JString(s)) => [JString(s)]
    case _ => []
  }

  /** `u => typeof u === "string" ? u.trim() : ""`. */
  function TrimEntry(u: Json): string
  {
    if u.JString? then Trim(u.s) else ""
  }

  function TrimEntries(list: seq<Json>): (r: seq<string>)
    ensures |r| == |list|
    ensures forall k :: 0 <= k < |list| ==> r[k] == TrimEntry(list[k])
  {
    seq(|list|, k requires 0 <= k < |list| => TrimEntry(list[k]))
  }

  /** `s.slice(0, n)`. */
  function Take<T>(s: seq<T>, n: nat): (r: seq<T>)
    ensures |r| == if |s| <= n then |s| else n
    ensures |s| <= n ==> r == s
    ensures r == s[..|r|]
  {
    if |s| <= n then s else s[..n]
  }

  /** The trimmed, non-blank addresses the handler works on, at most five. */
  function Normalize(list: seq<Json>): seq<string>
  {
    Take(NonEmpty(TrimEntries(list)), MAX_PAGES)
  }

  /** Every normalised address is a non-empty, already trimmed string that
      some string entry of the list trims to, and there are at most five. */
  lemma NormalizeShape(list: seq<Json>)
    ensures |Normalize(list)| <= MAX_PAGES
    ensures forall k :: 0 <= k < |Normalize(list)| ==>
      var u := Normalize(list)[k];
      u != [] && Trim(u) == u && exists j :: 0 <= j < |list| && TrimEntry(list[j]) == u && list[j].JString?
  {
    var t := TrimEntries(list);
    var r := Normalize(list);
    NonEmptyMembers(t);
    forall k | 0 <= k < |r|
      ensures r[k] != [] && Trim(r[k]) == r[k]
      ensures exists j :: 0 <= j < |list| && TrimEntry(list[j]) == r[k] && list[j].JString?
    {
      assert r[k] in NonEmpty(t);
      var j :| 0 <= j < |t| && t[j] == r[k];
      assert list[j].JString?;
      TrimIdempotent(list[j].s);
    }
  }

  /** The request is refused exactly when no entry is a non-blank string. */
  lemma NormalizeEmpty(list: seq<Json>)
    ensures Normalize(list) == [] <==> forall j :: 0 <= j < |list| ==> TrimEntry(list[j]) == []
  {
    NonEmptyNone(TrimEntries(list));
  }

  /** With at most five non-blank entries, all of them are kept. */
  lemma NormalizeKeepsFew(list: seq<Json>)
    requires |NonEmpty(TrimEntries(list))| <= MAX_PAGES
    ensures forall j :: 0 <= j < |list| && TrimEntry(list[j]) != [] ==> TrimEntry(list[j]) in Normalize(list)
  {
    NonEmptyMembers(TrimEntries(list));
    forall j | 0 <= j < |list| && TrimEntry(list[j]) != []
      ensures TrimEntry(list[j]) in Normalize(list)
    {
      assert TrimEntries(list)[j] == TrimEntry(list[j]);
    }
  }

  lemma TrimEntriesPrefix(list: seq<Json>, j: nat)
    requires j <= |list|
    ensures TrimEntries(list[..j]) == TrimEntries(list)[..j]
  {
  }

  /** Which five are kept: a non-blank entry preceded by fewer than five
      non-blank entries is kept, at its rank among them; otherwise five
      earlier entries already fill the list. */
  lemma NormalizeKeepsFirstFive(list: seq<Json>, j: nat)
    requires j < |list| && TrimEntry(list[j]) != []
    ensures var before := |NonEmpty(TrimEntries(list[..j]))|;
      && (before < MAX_PAGES ==> before < |Normalize(list)| && Normalize(list)[before] == TrimEntry(list[j]))
      && (before >= MAX_PAGES ==> |Normalize(list)| == MAX_PAGES)
  {
    var t := TrimEntries(list);
    TrimEntriesPrefix(list, j);
    NonEmptyAt(t, j);
    assert t[j] == TrimEntry(list[j]);
    assert Normalize(list) == Take(NonEmpty(t), MAX_PAGES);
  }

  // ---------------------------------------------------------------------------
  // One page

  /** `new URL(urlStr)` with the scheme check: the page address, or None when
      the loop skips it. */
  function Target(parse: Parser, urlStr: string): (r: Option<Url>)
    ensures r.Some? ==> parse(urlStr, None) == r && IsAcceptedScheme(r.value.protocol)
    ensures r.None? ==> parse(urlStr, None).None? || !IsAcceptedScheme(parse(urlStr, None).value.protocol)
  {
    match parse(urlStr, None)
    case None => None
    case Some(t) => if IsAcceptedScheme(t.protocol) then Some(t) else None
  }

  /** The items one page address contributes before merging. */
  function PageItems(parse: Parser, fetch: Fetcher, urlStr: string): seq<ImageItem>
  {
    match Target(parse, urlStr)
    case None => []
    case Some(t) =>
      match fetch(t)
      case None => []
      case Some(doc) => Items(parse, doc, t)
  }

  /** The items of all pages, in request order, before merging. */
  function Stream(parse: Parser, fetch: Fetcher, urls: seq<string>): seq<ImageItem>
  {
    if urls == [] then []
    else Stream(parse, fetch, urls[..|urls| - 1]) + PageItems(parse, fetch, urls[|urls| - 1])
  }

  // ---------------------------------------------------------------------------
  // The reference definition of the merge: first occurrences, then a cap

  function Fulls(s: seq<ImageItem>): set<string>
  {
    set x | x in s :: x.full
  }

  /** The items whose full address has not occurred earlier in `s`. */
  function Dedup(s: seq<ImageItem>): seq<ImageItem>
  {
    if s == [] then []
    else
      var d := Dedup(s[..|s| - 1]);
      if s[|s| - 1].full in Fulls(d) then d else d + [s[|s| - 1]]
  }

  // ---------------------------------------------------------------------------
  // The merge as the handler performs it

  /** The inner loop over one page's items, continuing from `acc`: an item
      is skipped when its full address was seen, and nothing is added once
      MAX_IMAGES items are held. */
  function Absorb(acc: seq<ImageItem>, items: seq<ImageItem>): seq<ImageItem>
  {
    if items == [] then acc
    else
      var a := Absorb(acc, items[..|items| - 1]);
      var x := items[|items| - 1];
      if |a| >= MAX_IMAGES || x.full in Fulls(a) then a else a + [x]
  }

  /** `allImages` after the loop over the first pages `urls`. */
  function Merged(parse: Parser, fetch: Fetcher, urls: seq<string>): seq<ImageItem>
  {
    if urls == [] then []
    else Absorb(Merged(parse, fetch, urls[..|urls| - 1]), PageItems(parse, fetch, urls[|urls| - 1]))
  }

  /** The page addresses the loop requests, in order: a page is requested
      when its address is a valid http(s) URL and fewer than MAX_IMAGES
      images were collected from the pages before it. */
  function Fetches(parse: Parser, fetch: Fetcher, urls: seq<string>): seq<Url>
  {
    if urls == [] then []
    else
      var pre := urls[..|urls| - 1];
      var t := Target(parse, urls[|urls| - 1]);
      if |Merged(parse, fetch, pre)| < MAX_IMAGES && t.Some? then Fetches(parse, fetch, pre) + [t.value]
      else Fetches(parse, fetch, pre)
  }

  // ---------------------------------------------------------------------------
  // The merge meets its reference definition

  lemma FullsAppend(s: seq<ImageItem>, x: ImageItem)
    ensures Fulls(s + [x]) == Fulls(s) + {x.full}
  {
    assert forall y :: y in s + [x] <==> y in s || y == x;
  }

  lemma TakeLong<T>(d: seq<T>, e: seq<T>, n: nat)
    requires |d| >= n
    ensures Take(d + e, n) == Take(d, n)
  {
    assert (d + e)[..n] == d[..n];
  }

  /** Absorbing a page into the capped, deduplicated stream so far gives the
      capped, deduplicated stream with that page appended. */
  lemma {:induction false} AbsorbIsDedup(s: seq<ImageItem>, items: seq<ImageItem>)
    ensures Absorb(Take(Dedup(s), MAX_IMAGES), items) == Take(Dedup(s + items), MAX_IMAGES)
  {
    if items == [] {
      assert s + items == s;
    } else {
      var pre := items[..|items| - 1];
      var x := items[|items| - 1];
      AbsorbIsDedup(s, pre);
      var a := Absorb(Take(Dedup(s), MAX_IMAGES), pre);
      var d := Dedup(s + pre);
      assert (s + items)[..|s + items| - 1] == s + pre;
      assert (s + items)[|s + items| - 1] == x;
      assert Dedup(s + items) == if x.full in Fulls(d) then d else d + [x];
      if |a| >= MAX_IMAGES {
        assert |d| >= MAX_IMAGES;
        if x.full !in Fulls(d) {
          TakeLong(d, [x], MAX_IMAGES);
        }
      }
    }
  }

  /** The merge keeps, in request order, the first item of each full
      address, and stops at MAX_IMAGES items. */
  lemma {:induction false} MergedIsCappedDedup(parse: Parser, fetch: Fetcher, urls: seq<string>)
    ensures Merged(parse, fetch, urls) == Take(Dedup(Stream(parse, fetch, urls)), MAX_IMAGES)
  {
    if urls != [] {
      var pre := urls[..|urls| - 1];
      MergedIsCappedDedup(parse, fetch, pre);
      AbsorbIsDedup(Stream(parse, fetch, pre), PageItems(parse, fetch, urls[|urls| - 1]));
    }
  }

  /** No two items of the deduplicated stream share a full address. */
  lemma {:induction false} DedupDistinct(s: seq<ImageItem>)
    ensures forall i, j :: 0 <= i < j < |Dedup(s)| ==> Dedup(s)[i].full != Dedup(s)[j].full
  {
    if s != [] {
      var d := Dedup(s[..|s| - 1]);
      DedupDistinct(s[..|s| - 1]);
      if s[|s| - 1].full !in Fulls(d) {
        var e := d + [s[|s| - 1]];
        forall i, j | 0 <= i < j < |e|
          ensures e[i].full != e[j].full
        {
          if j == |d| {
            assert e[i] in d;
          }
        }
      }
    }
  }

  /** Every item kept is an item of the stream, and every full address of
      the stream is kept. */
  lemma {:induction false} DedupMembers(s: seq<ImageItem>)
    ensures forall x :: x in Dedup(s) ==> x in s
    ensures Fulls(Dedup(s)) == Fulls(s)
  {
    if s != [] {
      var pre := s[..|s| - 1];
      var x := s[|s| - 1];
      DedupMembers(pre);
      assert s == pre + [x];
      FullsAppend(pre, x);
      if x.full !in Fulls(Dedup(pre)) {
        FullsAppend(Dedup(pre), x);
      }
    }
  }

  /** The item kept for a full address is its first occurrence. */
  lemma {:induction false} DedupKeepsFirst(s: seq<ImageItem>, i: nat)
    requires i < |s| && s[i].full !in Fulls(s[..i])
    ensures s[i] in Dedup(s)
  {
    if i < |s| - 1 {
      var pre := s[..|s| - 1];
      assert pre[..i] == s[..i];
      DedupKeepsFirst(pre, i);
    } else {
      assert s[..|s| - 1] == s[..i];
      DedupMembers(s[..i]);
    }
  }

  lemma {:induction false} StreamPages(parse: Parser, fetch: Fetcher, urls: seq<string>)
    ensures forall x :: x in Stream(parse, fetch, urls) ==>
      exists k :: 0 <= k < |urls| && x in PageItems(parse, fetch, urls[k])
  {
    if urls != [] {
      var pre := urls[..|urls| - 1];
      StreamPages(parse, fetch, pre);
      forall x | x in Stream(parse, fetch, urls)
        ensures exists k :: 0 <= k < |urls| && x in PageItems(parse, fetch, urls[k])
      {
        if x in Stream(parse, fetch, pre) {
          var k :| 0 <= k < |pre| && x in PageItems(parse, fetch, pre[k]);
          assert urls[k] == pre[k];
        } else {
          assert x in PageItems(parse, fetch, urls[|urls| - 1]);
        }
      }
    }
  }

  /** What the merged list promises: at most MAX_IMAGES items, no two with
      the same full address, each one an item of one of the pages. */
  lemma MergedShape(parse: Parser, fetch: Fetcher, urls: seq<string>)
    ensures |Merged(parse, fetch, urls)| <= MAX_IMAGES
    ensures forall i, j :: 0 <= i < j < |Merged(parse, fetch, urls)| ==>
      Merged(parse, fetch, urls)[i].full != Merged(parse, fetch, urls)[j].full
    ensures forall x :: x in Merged(parse, fetch, urls) ==>
      exists k :: 0 <= k < |urls| && x in PageItems(parse, fetch, urls[k])
  {
    var s := Stream(parse, fetch, urls);
    MergedIsCappedDedup(parse, fetch, urls);
    DedupDistinct(s);
    DedupMembers(s);
    StreamPages(parse, fetch, urls);
    var m := Merged(parse, fetch, urls);
    assert m == Dedup(s)[..|m|];
    forall x | x in m
      ensures exists k :: 0 <= k < |urls| && x in PageItems(parse, fetch, urls[k])
    {
      assert x in Dedup(s);
    }
  }

  /** Below the cap nothing is lost: every full address of every page is in
      the merged list. */
  lemma MergedComplete(parse: Parser, fetch: Fetcher, urls: seq<string>)
    requires |Dedup(Stream(parse, fetch, urls))| <= MAX_IMAGES
    ensures Fulls(Merged(parse, fetch, urls)) == Fulls(Stream(parse, fetch, urls))
  {
    MergedIsCappedDedup(parse, fetch, urls);
    DedupMembers(Stream(parse, fetch, urls));
  }

  /** Once MAX_IMAGES items are held, the rest of a page changes nothing. */
  lemma {:induction false} AbsorbSaturated(acc: seq<ImageItem>, items: seq<ImageItem>, j: nat)
    requires j <= |items| && |Absorb(acc, items[..j])| >= MAX_IMAGES
    ensures Absorb(acc, items) == Absorb(acc, items[..j])
  {
    if j < |items| {
      var pre := items[..|items| - 1];
      assert pre[..j] == items[..j];
      AbsorbSaturated(acc, pre, j);
    } else {
      assert items[..j] == items;
    }
  }

  /** Once MAX_IMAGES items are held, later pages are neither requested nor
      merged. */
  lemma {:induction false} MergedSaturated(parse: Parser, fetch: Fetcher, urls: seq<string>, i: nat)
    requires i <= |urls| && |Merged(parse, fetch, urls[..i])| >= MAX_IMAGES
    ensures Merged(parse, fetch, urls) == Merged(parse, fetch, urls[..i])
    ensures Fetches(parse, fetch, urls) == Fetches(parse, fetch, urls[..i])
  {
    if i < |urls| {
      var pre := urls[..|urls| - 1];
      assert pre[..i] == urls[..i];
      MergedSaturated(parse, fetch, pre, i);
      AbsorbSaturated(Merged(parse, fetch, pre), PageItems(parse, fetch, urls[|urls| - 1]), 0);
    } else {
      assert urls[..i] == urls;
    }
  }

  /** Only valid http(s) page addresses are requested, and no more requests
      than addresses. */
  lemma {:induction false} FetchesAreTargets(parse: Parser, fetch: Fetcher, urls: seq<string>)
    ensures |Fetches(parse, fetch, urls)| <= |urls|
    ensures forall t :: t in Fetches(parse, fetch, urls) ==>
      IsAcceptedScheme(t.protocol) && exists k :: 0 <= k < |urls| && parse(urls[k], None) == Some(t)
  {
    if urls != [] {
      var pre := urls[..|urls| - 1];
      FetchesAreTargets(parse, fetch, pre);
      forall t | t in Fetches(parse, fetch, urls)
        ensures IsAcceptedScheme(t.protocol) && exists k :: 0 <= k < |urls| && parse(urls[k], None) == Some(t)
      {
        if t in Fetches(parse, fetch, pre) {
          var k :| 0 <= k < |pre| && parse(pre[k], None) == Some(t);
          assert urls[k] == pre[k];
        } else {
          assert Target(parse, urls[|urls| - 1]) == Some(t);
        }
      }
    }
  }

  // ---------------------------------------------------------------------------
  // The merge loop

  /** The inner loop over one page's items, from the images and the set of
      full addresses collected so far. */
  method AbsorbPage(acc: seq<ImageItem>, seen: set<string>, imgs: seq<ImageItem>) returns (all: seq<ImageItem>, seen': set<string>)
    requires seen == Fulls(acc) && |acc| < MAX_IMAGES
    ensures all == Absorb(acc, imgs)
    ensures seen' == Fulls(all)
  {
    all := acc;
    seen' := seen;
    for j := 0 to |imgs|
      invariant all == Absorb(acc, imgs[..j])
      invariant seen' == Fulls(all)
      invariant |all| < MAX_IMAGES
    {
      assert imgs[..j + 1][..j] == imgs[..j];
      var img := imgs[j];
      if img.full in seen' {
        continue;
      }
      FullsAppend(all, img);
      seen' := seen' + {img.full};
      all := all + [img];
      if |all| >= MAX_IMAGES {
        AbsorbSaturated(acc, imgs, j + 1);
        return;
      }
    }
    assert imgs[..|imgs|] == imgs;
  }

  /** One turn of the page loop: the address at `i` is absorbed and, when it
      is a valid target and the cap is not reached, requested. */
  lemma MergeTurn(parse: Parser, fetch: Fetcher, urls: seq<string>, i: nat)
    requires i < |urls|
    ensures Merged(parse, fetch, urls[..i + 1]) == Absorb(Merged(parse, fetch, urls[..i]), PageItems(parse, fetch, urls[i]))
    ensures var t := Target(parse, urls[i]);
      Fetches(parse, fetch, urls[..i + 1]) ==
        if |Merged(parse, fetch, urls[..i])| < MAX_IMAGES && t.Some? then Fetches(parse, fetch, urls[..i]) + [t.value]
        else Fetches(parse, fetch, urls[..i])
  {
    assert urls[..i + 1][..i] == urls[..i];
  }

  /** The loop over the normalised addresses, as the handler writes it. */
  method Merge(parse: Parser, fetch: Fetcher, urls: seq<string>) returns (all: seq<ImageItem>, fetched: seq<Url>)
    ensures all == Merged(parse, fetch, urls)
    ensures fetched == Fetches(parse, fetch, urls)
  {
    all := [];
    fetched := [];
    var seen: set<string> := {};
    for i := 0 to |urls|
      invariant all == Merged(parse, fetch, urls[..i])
      invariant fetched == Fetches(parse, fetch, urls[..i])
      invariant seen == Fulls(all)
      invariant |all| < MAX_IMAGES
    {
      MergeTurn(parse, fetch, urls, i);
      var target := parse(urls[i], None);
      if target.None? || !IsAcceptedScheme(target.value.protocol) {
        continue;
      }
      fetched := fetched + [target.value];
      var html := fetch(target.value);
      if html.None? {
        continue;
      }
      var imgs := ExtractImages(parse, html.value, target.value);
      assert imgs == PageItems(parse, fetch, urls[i]);
      all, seen := AbsorbPage(all, seen, imgs);
      if |all| >= MAX_IMAGES {
        MergedSaturated(parse, fetch, urls, i + 1);
        return;
      }
    }
    assert urls[..|urls|] == urls;
  }

  // ---------------------------------------------------------------------------
  // Pagination

  /** `Number(...) || 1`: zero and NaN are falsy and select page 1. */
  function EffectivePage(p: PageNumber): (r: PageNumber)
    ensures r != NaN && r != Finite(0)
    ensures p == NaN || p == Finite(0) ==> r == Finite(1)
    ensures p != NaN && p != Finite(0) ==> r == p
  {
    if p == NaN || p == Finite(0) then Finite(1) else p
  }

  /** `Math.max(0, (page - 1) * PAGE_SIZE)`, None standing for +Infinity. */
  function PageStart(p: PageNumber): (r: Option<nat>)
    ensures p.Finite? && p.n >= 1 ==> r == Some((p.n - 1) * PAGE_SIZE)
    ensures (p.Finite? && p.n < 1) || p == NegInfinity ==> r == Some(0)
    ensures p == PosInfinity ==> r == None
    requires p != NaN
  {
    match p
    case Finite(n) => if n >= 1 then Some((n - 1) * PAGE_SIZE) else Some(0)
    case NegInfinity => Some(0)
    case PosInfinity => None
  }

  /** `allImages.slice(start, start + PAGE_SIZE)`, `hasMore` and `total`. */
  function Paginate(all: seq<ImageItem>, page: PageNumber): ScrapeReply
  {
    var start := PageStart(EffectivePage(page));
    match start
    case None => Listing([], false, |all|)
    case Some(s) =>
      var lo := if s <= |all| then s else |all|;
      var hi := if s + PAGE_SIZE <= |all| then s + PAGE_SIZE else |all|;
      Listing(all[lo..hi], |all| > s + PAGE_SIZE, |all|)
  }

  /** Page k (from 1) is the k-th window of PAGE_SIZE items, `hasMore`
      says whether any item lies past it, and `total` is the whole count. */
  lemma PaginateWindow(all: seq<ImageItem>, k: nat)
    requires k >= 1
    ensures var r := Paginate(all, Finite(k));
      && r.Listing?
      && r.total == |all|
      && (r.hasMore <==> |all| > k * PAGE_SIZE)
      && |r.images| <= PAGE_SIZE
      && (r.images == [] <==> |all| <= (k - 1) * PAGE_SIZE)
      && (forall j :: 0 <= j < |r.images| ==> r.images[j] == all[(k - 1) * PAGE_SIZE + j])
      && var lo := if (k - 1) * PAGE_SIZE <= |all| then (k - 1) * PAGE_SIZE else |all|;
         var hi := if k * PAGE_SIZE <= |all| then k * PAGE_SIZE else |all|;
         r.images == all[lo..hi]
  {
  }

  /** A missing, zero, NaN or non-positive page means the first page; an
      infinite page means an empty one. */
  lemma PaginateDefaults(all: seq<ImageItem>, p: PageNumber)
    ensures p == NaN || (p.Finite? && p.n <= 1) || p == NegInfinity ==> Paginate(all, p) == Paginate(all, Finite(1))
    ensures p == PosInfinity ==> Paginate(all, p) == Listing([], false, |all|)
  {
  }

  /** The pages 1 to n, concatenated. */
  function Pages(all: seq<ImageItem>, n: nat): seq<ImageItem>
  {
    if n == 0 then [] else Pages(all, n - 1) + Paginate(all, Finite(n)).images
  }

  /** Reading the pages in turn yields the merged list from its start, and
      once `hasMore` is false it has yielded all of it. */
  lemma {:induction false} PagesCover(all: seq<ImageItem>, n: nat)
    ensures Pages(all, n) == all[..if n * PAGE_SIZE <= |all| then n * PAGE_SIZE else |all|]
    ensures n >= 1 && !Paginate(all, Finite(n)).hasMore ==> Pages(all, n) == all
  {
    if n >= 1 {
      PagesCover(all, n - 1);
      PaginateWindow(all, n);
      var lo := if (n - 1) * PAGE_SIZE <= |all| then (n - 1) * PAGE_SIZE else |all|;
      var hi := if n * PAGE_SIZE <= |all| then n * PAGE_SIZE else |all|;
      assert all[..lo] + all[lo..hi] == all[..hi];
    }
  }

  // ---------------------------------------------------------------------------
  // The handler

  /** The handler's answer for a payload and a page number. */
  function Reply(parse: Parser, fetch: Fetcher, payload: Payload, page: PageNumber): ScrapeReply
  {
    var normalized := Normalize(UrlList(UrlsInput(payload)));
    if normalized == [] then BadRequest("urls are required")
    else Paginate(Merged(parse, fetch, normalized), page)
  }

  /** The pages the handler requests: none when the request is refused. */
  function Requests(parse: Parser, fetch: Fetcher, payload: Payload): seq<Url>
  {
    var normalized := Normalize(UrlList(UrlsInput(payload)));
    if normalized == [] then [] else Fetches(parse, fetch, normalized)
  }

  /** `POST(req)`: the answer and, in order, the pages it requested. */
  method Post(parse: Parser, fetch: Fetcher, payload: Payload, page: PageNumber) returns (reply: ScrapeReply, fetched: seq<Url>)
    ensures reply == Reply(parse, fetch, payload, page)
    ensures fetched == Requests(parse, fetch, payload)
  {
    var normalized := Normalize(UrlList(UrlsInput(payload)));
    if |normalized| == 0 {
      return BadRequest("urls are required"), [];
    }
    var all;
    all, fetched := Merge(parse, fetch, normalized);
    reply := Paginate(all, page);
  }

  /** The request is refused, with status 400 and "urls are required",
      exactly when the chosen input holds no non-blank string. */
  lemma ReplyRefused(parse: Parser, fetch: Fetcher, payload: Payload, page: PageNumber)
    ensures var list := UrlList(UrlsInput(payload));
      Reply(parse, fetch, payload, page) == BadRequest("urls are required") <==>
      forall j :: 0 <= j < |list| ==> TrimEntry(list[j]) == []
    ensures Reply(parse, fetch, payload, page).BadRequest? ==> Reply(parse, fetch, payload, page).error == "urls are required"
  {
    var normalized := Normalize(UrlList(UrlsInput(payload)));
    NormalizeEmpty(UrlList(UrlsInput(payload)));
    if normalized != [] {
      var lo := PaginateSlice(Merged(parse, fetch, normalized), page);
    }
  }

  /** A page is at most PAGE_SIZE consecutive items of the merged list,
      starting at `lo`. */
  lemma PaginateSlice(all: seq<ImageItem>, page: PageNumber) returns (lo: nat)
    ensures var r := Paginate(all, page);
      && r.Listing? && r.total == |all|
      && |r.images| <= PAGE_SIZE
      && lo + |r.images| <= |all| && r.images == all[lo..lo + |r.images|]
  {
    var r := Paginate(all, page);
    match PageStart(EffectivePage(page))
    case None =>
      lo := 0;
    case Some(s) =>
      lo := if s <= |all| then s else |all|;
  }

  lemma DistinctSlice(all: seq<ImageItem>, lo: nat, hi: nat)
    requires lo <= hi <= |all|
    requires forall i, j :: 0 <= i < j < |all| ==> all[i].full != all[j].full
    ensures forall i, j :: 0 <= i < j < hi - lo ==> all[lo..hi][i].full != all[lo..hi][j].full
  {
    forall i, j | 0 <= i < j < hi - lo
      ensures all[lo..hi][i].full != all[lo..hi][j].full
    {
      assert all[lo..hi][i] == all[lo + i] && all[lo..hi][j] == all[lo + j];
    }
  }

  /** An accepted request answers at most PAGE_SIZE images out of at most
      MAX_IMAGES, none sharing a full address. */
  lemma ReplyBounds(parse: Parser, fetch: Fetcher, payload: Payload, page: PageNumber)
    ensures var r := Reply(parse, fetch, payload, page);
      r.Listing? ==>
        && r.total <= MAX_IMAGES
        && |r.images| <= PAGE_SIZE
        && forall i, j :: 0 <= i < j < |r.images| ==> r.images[i].full != r.images[j].full
  {
    var normalized := Normalize(UrlList(UrlsInput(payload)));
    if normalized != [] {
      var all := Merged(parse, fetch, normalized);
      MergedShape(parse, fetch, normalized);
      var lo := PaginateSlice(all, page);
      var r := Paginate(all, page);
      assert Reply(parse, fetch, payload, page) == r;
      DistinctSlice(all, lo, lo + |r.images|);
    }
  }

  /** At most five pages are requested, each a valid http(s) address. */
  lemma RequestsBounded(parse: Parser, fetch: Fetcher, payload: Payload)
    ensures |Requests(parse, fetch, payload)| <= MAX_PAGES
    ensures forall t :: t in Requests(parse, fetch, payload) ==> IsAcceptedScheme(t.protocol)
  {
    var normalized := Normalize(UrlList(UrlsInput(payload)));
    NormalizeShape(UrlList(UrlsInput(payload)));
    FetchesAreTargets(parse, fetch, normalized);
  }
}
