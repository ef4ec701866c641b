/** The candidate extractor of the discovery route: `pickFromSrcset` and
    `extractImages`. The HTML document is abstracted to its `img` elements in
    document order, each with the attributes the extractor reads and the href
    of its closest enclosing link. */
module Extractor {
  import opened Js
  import opened Resolver

  /** One `img` element: each attribute is None when it is missing. */
  datatype Img = Img(
    src: Option<string>,
    dataSrc: Option<string>,
    srcset: Option<string>,
    dataFull: Option<string>,
    dataOriginal: Option<string>,
    dataLarge: Option<string>,
    linkHref: Option<string>)

  datatype ImageItem = ImageItem(thumb: string, full: string)

  datatype SrcsetPick = SrcsetPick(first: Option<string>, last: Option<string>)

  // ---------------------------------------------------------------------------
  // pickFromSrcset

  /** `s.trim().split(" ")[0]` for one comma-separated entry. */
  function EntryToken(entry: string): string
  {
    Split(Trim(entry), ' ')[0]
  }

  /** `.map((s) => s.trim().split(" ")[0])` over the comma-separated entries. */
  function EntryTokens(entries: seq<string>): (r: seq<string>)
    ensures |r| == |entries|
  {
    seq(|entries|, k requires 0 <= k < |entries| => EntryToken(entries[k]))
  }

  /** The list `pickFromSrcset` takes its two ends from. */
  function SrcsetParts(srcset: string): seq<string>
  {
    NonEmpty(EntryTokens(Split(srcset, ',')))
  }

  /** The two ends of a token list, or neither when it is empty. */
  function Ends(parts: seq<string>): (r: SrcsetPick)
    ensures r.first.Some? <==> r.last.Some?
  {
    if parts == [] then SrcsetPick(None, None) else SrcsetPick(Some(parts[0]), Some(parts[|parts| - 1]))
  }

  /** `pickFromSrcset(srcset)`. */
  function PickFromSrcset(srcset: Option<string>): (r: SrcsetPick)
    ensures r.first.Some? <==> r.last.Some?
    ensures r.first.Some? ==> r.first.value != [] && r.last.value != []
  {
    if !Truthy(srcset) then SrcsetPick(None, None) else Ends(SrcsetParts(srcset.value))
  }

  /** An entry yields no token exactly when it is blank: a trimmed entry
      cannot start with the space the token is cut at. */
  lemma EntryTokenEmptyIffBlank(entry: string)
    ensures EntryToken(entry) == [] <==> Trim(entry) == []
  {
    var t := Trim(entry);
    SplitHead(t, ' ');
    if t != [] {
      assert t[0] != ' ' by {
        assert !IsSpace(t[0]);
      }
    }
  }

  lemma EntryTokensEmptyIffBlank(entries: seq<string>)
    ensures forall j :: 0 <= j < |entries| ==> (EntryTokens(entries)[j] == [] <==> Trim(entries[j]) == [])
  {
    forall j | 0 <= j < |entries|
      ensures EntryTokens(entries)[j] == [] <==> Trim(entries[j]) == []
    {
      EntryTokenEmptyIffBlank(entries[j]);
    }
  }

  /** The empty attribute has a single, blank, entry. */
  lemma EmptySrcsetTokens()
    ensures EntryTokens(Split([], ',')) == [[]]
  {
    assert Split([], ',') == [[]];
    assert Trim([]) == [];
    assert Split([], ' ') == [[]];
  }

  lemma PickFirstToken(srcset: string, tokens: seq<string>, k: nat)
    requires tokens == EntryTokens(Split(srcset, ','))
    requires k < |tokens| && tokens[k] != []
    requires forall j :: 0 <= j < k ==> tokens[j] == []
    ensures PickFromSrcset(Some(srcset)).first == Some(tokens[k])
  {
    assert srcset != [] by {
      EmptySrcsetTokens();
    }
    NonEmptyFirst(tokens, k);
  }

  /** `first` is the token of the first non-blank comma-separated entry. */
  lemma SrcsetFirst(srcset: string, k: nat)
    requires k < |Split(srcset, ',')| && Trim(Split(srcset, ',')[k]) != []
    requires forall j :: 0 <= j < k ==> Trim(Split(srcset, ',')[j]) == []
    ensures PickFromSrcset(Some(srcset)).first == Some(EntryToken(Split(srcset, ',')[k]))
  {
    var entries := Split(srcset, ',');
    EntryTokensEmptyIffBlank(entries);
    PickFirstToken(srcset, EntryTokens(entries), k);
  }

  lemma PickLastToken(srcset: string, tokens: seq<string>, k: nat)
    requires tokens == EntryTokens(Split(srcset, ','))
    requires k < |tokens| && tokens[k] != []
    requires forall j :: k < j < |tokens| ==> tokens[j] == []
    ensures PickFromSrcset(Some(srcset)).last == Some(tokens[k])
  {
    assert srcset != [] by {
      EmptySrcsetTokens();
    }
    NonEmptyLast(tokens, k);
    var parts := NonEmpty(tokens);
    assert PickFromSrcset(Some(srcset)) == Ends(parts);
    assert Ends(parts).last == Some(parts[|parts| - 1]);
  }

  /** `last` is the token of the last non-blank comma-separated entry. */
  lemma SrcsetLast(srcset: string, k: nat)
    requires k < |Split(srcset, ',')| && Trim(Split(srcset, ',')[k]) != []
    requires forall j :: k < j < |Split(srcset, ',')| ==> Trim(Split(srcset, ',')[j]) == []
    ensures PickFromSrcset(Some(srcset)).last == Some(EntryToken(Split(srcset, ',')[k]))
  {
    var entries := Split(srcset, ',');
    EntryTokensEmptyIffBlank(entries);
    PickLastToken(srcset, EntryTokens(entries), k);
  }

  /** Nothing is picked exactly when the attribute is missing or every entry
      is blank (which includes the empty attribute). */
  lemma SrcsetNothing(srcset: Option<string>)
    ensures PickFromSrcset(srcset).first.None? <==>
      (srcset.None? || forall j :: 0 <= j < |Split(srcset.value, ',')| ==> Trim(Split(srcset.value, ',')[j]) == [])
  {
    if srcset.Some? {
      if srcset.value == [] {
        assert Split(srcset.value, ',') == [[]];
      } else {
        EntryTokensEmptyIffBlank(Split(srcset.value, ','));
        NonEmptyNone(EntryTokens(Split(srcset.value, ',')));
      }
    }
  }

  /** A single non-blank entry gives first == last. */
  lemma SrcsetSingleEntry(srcset: string)
    requires ',' !in srcset && Trim(srcset) != []
    ensures PickFromSrcset(Some(srcset)) == SrcsetPick(Some(EntryToken(srcset)), Some(EntryToken(srcset)))
  {
    SplitWithoutSeparator(srcset, ',');
    EntryTokenEmptyIffBlank(srcset);
    assert EntryTokens([srcset]) == [EntryToken(srcset)];
    assert NonEmpty([EntryToken(srcset)]) == [EntryToken(srcset)];
  }

  // ---------------------------------------------------------------------------
  // The fallback chains of extractImages

  /** `[parentLink, dataFull, srcset.last, src, dataSrc]`, where dataFull is
      `data-full || data-original || data-large`. */
  function FullCandidates(el: Img, pick: SrcsetPick): seq<Option<string>>
  {
    [el.linkHref, Or(Or(el.dataFull, el.dataOriginal), el.dataLarge), pick.last, el.src, el.dataSrc]
  }

  /** `[src, dataSrc, srcset.first, srcset.last]`. */
  function ThumbCandidates(el: Img, pick: SrcsetPick): seq<Option<string>>
  {
    [el.src, el.dataSrc, pick.first, pick.last]
  }

  /** `src || dataSrc || srcset.last || srcset.first || ""`: the first
      non-empty string, whether or not it resolves. */
  function FallbackSource(el: Img, pick: SrcsetPick): Option<string>
  {
    Or(Or(Or(Or(el.src, el.dataSrc), pick.last), pick.first), Some(""))
  }

  predicate PassesFullFilter(parse: Parser, cand: Option<string>, base: Url)
  {
    var r := ResolveUrl(parse, cand, base);
    r.Some? && LooksFullSized(r.value)
  }

  /** The resolution of the first candidate that resolves and passes the
      full-size filter, or None. */
  function FirstFullSized(parse: Parser, cands: seq<Option<string>>, base: Url): Option<string>
  {
    if cands == [] then None
    else if PassesFullFilter(parse, cands[0], base) then ResolveUrl(parse, cands[0], base)
    else FirstFullSized(parse, cands[1..], base)
  }

  /** The resolution of the first candidate that resolves, or None. */
  function FirstResolved(parse: Parser, cands: seq<Option<string>>, base: Url): Option<string>
  {
    if cands == [] then None
    else if ResolveUrl(parse, cands[0], base).Some? then ResolveUrl(parse, cands[0], base)
    else FirstResolved(parse, cands[1..], base)
  }

  /** The `full` URL extractImages settles on for one element. */
  function FullOf(parse: Parser, el: Img, base: Url): Option<string>
  {
    var pick := PickFromSrcset(el.srcset);
    var chosen := FirstFullSized(parse, FullCandidates(el, pick), base);
    if chosen.Some? then chosen else ResolveUrl(parse, FallbackSource(el, pick), base)
  }

  /** The `thumb` URL extractImages settles on for one element. */
  function ThumbOf(parse: Parser, el: Img, base: Url): Option<string>
  {
    var chosen := FirstResolved(parse, ThumbCandidates(el, PickFromSrcset(el.srcset)), base);
    if chosen.Some? then chosen else FullOf(parse, el, base)
  }

  /** The item one element contributes: none when it has no `full`. */
  function ItemOf(parse: Parser, el: Img, base: Url): Option<ImageItem>
  {
    var full := FullOf(parse, el, base);
    var thumb := ThumbOf(parse, el, base);
    if full.Some? && thumb.Some? then Some(ImageItem(thumb.value, full.value)) else None
  }

  /** The items of a document, element by element in document order. */
  function Items(parse: Parser, doc: seq<Img>, base: Url): seq<ImageItem>
  {
    if doc == [] then []
    else
      var item := ItemOf(parse, doc[|doc| - 1], base);
      Items(parse, doc[..|doc| - 1], base) + (if item.Some? then [item.value] else [])
  }

  // ---------------------------------------------------------------------------
  // extractImages

  /** The `for (const cand of fullCandidates)` loop. */
  method ChooseFull(parse: Parser, cands: seq<Option<string>>, base: Url) returns (full: Option<string>)
    ensures full == FirstFullSized(parse, cands, base)
  {
    full := None;
    for i := 0 to |cands|
      invariant FirstFullSized(parse, cands, base) == FirstFullSized(parse, cands[i..], base)
    {
      assert cands[i..][1..] == cands[i + 1..];
      var resolved := ResolveUrl(parse, cands[i], base);
      if resolved.Some? && LooksFullSized(resolved.value) {
        full := resolved;
        return;
      }
    }
  }

  /** The `for (const cand of thumbCandidates)` loop. */
  method ChooseThumb(parse: Parser, cands: seq<Option<string>>, base: Url) returns (thumb: Option<string>)
    ensures thumb == FirstResolved(parse, cands, base)
  {
    thumb := None;
    for i := 0 to |cands|
      invariant FirstResolved(parse, cands, base) == FirstResolved(parse, cands[i..], base)
    {
      assert cands[i..][1..] == cands[i + 1..];
      var resolved := ResolveUrl(parse, cands[i], base);
      if resolved.Some? {
        thumb := resolved;
        return;
      }
    }
  }

  /** The body of the `$("img").each` callback for one element: the item it
      pushes, or None when it returns early. */
  method ExtractOne(parse: Parser, el: Img, base: Url) returns (item: Option<ImageItem>)
    ensures item == ItemOf(parse, el, base)
  {
    var pick := PickFromSrcset(el.srcset);
    var full := ChooseFull(parse, FullCandidates(el, pick), base);
    if full.None? {
      var fallback := ResolveUrl(parse, FallbackSource(el, pick), base);
      if fallback.Some? {
        full := fallback;
      }
    }
    assert full == FullOf(parse, el, base);
    var thumb := ChooseThumb(parse, ThumbCandidates(el, pick), base);
    if thumb.None? && full.Some? {
      thumb := full;
    }
    assert thumb == ThumbOf(parse, el, base);
    if full.None? || thumb.None? {
      return None;
    }
    item := Some(ImageItem(thumb.value, full.value));
  }

  /** `extractImages($, base)`: one pass over the `img` elements in document
      order, pushing the item of every element that has one. */
  method ExtractImages(parse: Parser, doc: seq<Img>, base: Url) returns (found: seq<ImageItem>)
    ensures found == Items(parse, doc, base)
  {
    found := [];
    for i := 0 to |doc|
      invariant found == Items(parse, doc[..i], base)
    {
      var item := ExtractOne(parse, doc[i], base);
      assert doc[..i + 1][..i] == doc[..i];
      if item.Some? {
        found := found + [item.value];
      }
    }
    assert doc[..|doc|] == doc;
  }

  // ---------------------------------------------------------------------------
  // Properties of the extractor

  /** A chosen full URL passes the filter and is an http(s) href. */
  lemma {:induction false} FirstFullSizedSound(parse: Parser, cands: seq<Option<string>>, base: Url)
    ensures FirstFullSized(parse, cands, base).Some? ==>
      LooksFullSized(FirstFullSized(parse, cands, base).value)
      && IsResolvedHref(parse, base, FirstFullSized(parse, cands, base).value)
  {
    if cands != [] {
      if PassesFullFilter(parse, cands[0], base) {
        ResolvedIsHttp(parse, cands[0], base);
      } else {
        FirstFullSizedSound(parse, cands[1..], base);
      }
    }
  }

  lemma {:induction false} FirstResolvedSound(parse: Parser, cands: seq<Option<string>>, base: Url)
    ensures FirstResolved(parse, cands, base).Some? ==>
      IsResolvedHref(parse, base, FirstResolved(parse, cands, base).value)
  {
    if cands != [] {
      if ResolveUrl(parse, cands[0], base).Some? {
        ResolvedIsHttp(parse, cands[0], base);
      } else {
        FirstResolvedSound(parse, cands[1..], base);
      }
    }
  }

  /** Priority order: the k-th candidate is chosen when it passes and every
      earlier one fails. */
  lemma {:induction false} FirstFullSizedAt(parse: Parser, cands: seq<Option<string>>, base: Url, k: nat)
    requires k < |cands| && PassesFullFilter(parse, cands[k], base)
    requires forall j :: 0 <= j < k ==> !PassesFullFilter(parse, cands[j], base)
    ensures FirstFullSized(parse, cands, base) == ResolveUrl(parse, cands[k], base)
  {
    if k > 0 {
      FirstFullSizedAt(parse, cands[1..], base, k - 1);
    }
  }

  /** No candidate is chosen exactly when every candidate fails. */
  lemma {:induction false} FirstFullSizedNone(parse: Parser, cands: seq<Option<string>>, base: Url)
    ensures FirstFullSized(parse, cands, base).None? <==>
      forall j :: 0 <= j < |cands| ==> !PassesFullFilter(parse, cands[j], base)
  {
    if cands != [] {
      FirstFullSizedNone(parse, cands[1..], base);
      assert forall j :: 1 <= j < |cands| ==> cands[j] == cands[1..][j - 1];
    }
  }

  lemma {:induction false} FirstResolvedAt(parse: Parser, cands: seq<Option<string>>, base: Url, k: nat)
    requires k < |cands| && ResolveUrl(parse, cands[k], base).Some?
    requires forall j :: 0 <= j < k ==> ResolveUrl(parse, cands[j], base).None?
    ensures FirstResolved(parse, cands, base) == ResolveUrl(parse, cands[k], base)
  {
    if k > 0 {
      FirstResolvedAt(parse, cands[1..], base, k - 1);
    }
  }

  lemma {:induction false} FirstResolvedNone(parse: Parser, cands: seq<Option<string>>, base: Url)
    ensures FirstResolved(parse, cands, base).None? <==>
      forall j :: 0 <= j < |cands| ==> ResolveUrl(parse, cands[j], base).None?
  {
    if cands != [] {
      FirstResolvedNone(parse, cands[1..], base);
      assert forall j :: 1 <= j < |cands| ==> cands[j] == cands[1..][j - 1];
    }
  }

  /** The full URL follows the priority order link href, data-full chain,
      srcset last, src, data-src: the k-th is used when it passes the filter
      and every earlier one fails. */
  lemma FullOfPriority(parse: Parser, el: Img, base: Url, k: nat)
    requires k < 5
    requires PassesFullFilter(parse, FullCandidates(el, PickFromSrcset(el.srcset))[k], base)
    requires forall j :: 0 <= j < k ==> !PassesFullFilter(parse, FullCandidates(el, PickFromSrcset(el.srcset))[j], base)
    ensures FullOf(parse, el, base) == ResolveUrl(parse, FullCandidates(el, PickFromSrcset(el.srcset))[k], base)
  {
    FirstFullSizedAt(parse, FullCandidates(el, PickFromSrcset(el.srcset)), base, k);
  }

  /** Only when no candidate passes is the fallback string resolved, and that
      fallback is the first non-empty one among src, data-src, srcset last and
      srcset first. */
  lemma FullOfFallback(parse: Parser, el: Img, base: Url)
    requires forall j :: 0 <= j < 5 ==> !PassesFullFilter(parse, FullCandidates(el, PickFromSrcset(el.srcset))[j], base)
    ensures FullOf(parse, el, base) == ResolveUrl(parse, FallbackSource(el, PickFromSrcset(el.srcset)), base)
  {
    FirstFullSizedNone(parse, FullCandidates(el, PickFromSrcset(el.srcset)), base);
  }

  /** The thumb is the first of src, data-src, srcset first, srcset last that
      resolves; only when none does is it the full URL. */
  lemma ThumbOfPriority(parse: Parser, el: Img, base: Url, k: nat)
    requires k < 4
    requires ResolveUrl(parse, ThumbCandidates(el, PickFromSrcset(el.srcset))[k], base).Some?
    requires forall j :: 0 <= j < k ==> ResolveUrl(parse, ThumbCandidates(el, PickFromSrcset(el.srcset))[j], base).None?
    ensures ThumbOf(parse, el, base) == ResolveUrl(parse, ThumbCandidates(el, PickFromSrcset(el.srcset))[k], base)
  {
    FirstResolvedAt(parse, ThumbCandidates(el, PickFromSrcset(el.srcset)), base, k);
  }

  lemma ThumbOfFallback(parse: Parser, el: Img, base: Url)
    requires forall j :: 0 <= j < 4 ==> ResolveUrl(parse, ThumbCandidates(el, PickFromSrcset(el.srcset))[j], base).None?
    ensures ThumbOf(parse, el, base) == FullOf(parse, el, base)
  {
    FirstResolvedNone(parse, ThumbCandidates(el, PickFromSrcset(el.srcset)), base);
  }

  /** An element yields an item exactly when it has a full URL, even when a
      thumb resolved; the item carries the element's full and thumb, and both
      are http(s) hrefs the parser produced against the page URL. */
  lemma ItemOfSpec(parse: Parser, el: Img, base: Url)
    ensures ItemOf(parse, el, base).Some? <==> FullOf(parse, el, base).Some?
    ensures ItemOf(parse, el, base).Some? ==>
      var item := ItemOf(parse, el, base).value;
      && Some(item.full) == FullOf(parse, el, base)
      && Some(item.thumb) == ThumbOf(parse, el, base)
      && IsResolvedHref(parse, base, item.full)
      && IsResolvedHref(parse, base, item.thumb)
  {
    var pick := PickFromSrcset(el.srcset);
    FirstFullSizedSound(parse, FullCandidates(el, pick), base);
    FirstResolvedSound(parse, ThumbCandidates(el, pick), base);
    ResolvedIsHttp(parse, FallbackSource(el, pick), base);
  }

  /** Document order: the items of two consecutive runs of elements are the
      items of the first run followed by those of the second. */
  lemma {:induction false} ItemsAppend(parse: Parser, a: seq<Img>, b: seq<Img>, base: Url)
    ensures Items(parse, a + b, base) == Items(parse, a, base) + Items(parse, b, base)
  {
    if b == [] {
      assert a + b == a;
    } else {
      var b' := b[..|b| - 1];
      ItemsAppend(parse, a, b', base);
      assert (a + b)[..|a + b| - 1] == a + b';
    }
  }

  /** At most one item per element, and every item is the item of one of the
      document's elements. */
  lemma {:induction false} ItemsFromElements(parse: Parser, doc: seq<Img>, base: Url)
    ensures |Items(parse, doc, base)| <= |doc|
    ensures forall x :: x in Items(parse, doc, base) ==>
      exists i :: 0 <= i < |doc| && ItemOf(parse, doc[i], base) == Some(x)
  {
    if doc != [] {
      var init := doc[..|doc| - 1];
      ItemsFromElements(parse, init, base);
      forall x | x in Items(parse, doc, base)
        ensures exists i :: 0 <= i < |doc| && ItemOf(parse, doc[i], base) == Some(x)
      {
        if x in Items(parse, init, base) {
          var i :| 0 <= i < |init| && ItemOf(parse, init[i], base) == Some(x);
          assert doc[i] == init[i];
        } else {
          assert ItemOf(parse, doc[|doc| - 1], base) == Some(x);
        }
      }
    }
  }

  /** Every element with a full URL contributes its item. */
  lemma {:induction false} ElementsReachItems(parse: Parser, doc: seq<Img>, base: Url, i: nat)
    requires i < |doc| && ItemOf(parse, doc[i], base).Some?
    ensures ItemOf(parse, doc[i], base).value in Items(parse, doc, base)
  {
    if i < |doc| - 1 {
      ElementsReachItems(parse, doc[..|doc| - 1], base, i);
    }
  }

  /** A parser for the example below: it resolves root-relative paths against
      "http://a" and rejects everything else. */
  function DemoParse(raw: string, base: Option<Url>): Option<Url>
  {
    if StartsWith(raw, "/") then Some(Url("http:", "http://a" + raw, raw)) else None
  }

  const DemoBase: Url := Url("http:", "http://a/", "/")
  const DemoElement: Img := Img(Some("data:x"), Some("/x"), None, None, None, None, None)

  lemma DemoResolvesPath()
    ensures ResolveUrl(DemoParse, Some("/x"), DemoBase) == Some("http://a/x")
  {
    TrimmedIsFixed("/x");
    assert StartsWith("/x", "/");
    assert "http://a" + "/x" == "http://a/x";
    assert DemoParse("/x", Some(DemoBase)) == Some(Url("http:", "http://a/x", "/x"));
  }

  lemma DemoRejectsData()
    ensures ResolveUrl(DemoParse, Some("data:x"), DemoBase) == None
  {
    TrimmedIsFixed("data:x");
    assert IsInlineScheme("data:x");
  }

  lemma DemoNotFullSized()
    ensures !LooksFullSized("http://a/x")
  {
    DemoNoImageExtension();
    DemoNoKeyword();
  }

  lemma DemoNoImageExtension()
    ensures !HasImageExtension("http://a/x")
  {
    var h := "http://a/x";
    assert LowerAscii(h[|h| - 1]) == 'x';
    forall e | e in ImageExtensions
      ensures !EndsWithIgnoringCase(h, e)
    {
      LastCharDiffers(h, e);
    }
  }

  lemma DemoNoKeyword()
    ensures !Contains("http://a/x", "/orig") && !Contains("http://a/x", "large")
  {
    var h := "http://a/x";
    assert 'o' !in h && 'l' !in h;
    NotContainsMissing(h, "/orig", 'o');
    NotContainsMissing(h, "large", 'l');
  }

  lemma LastCharDiffers(h: string, e: string)
    requires h != [] && LowerAscii(h[|h| - 1]) == 'x' && e in ImageExtensions
    ensures !EndsWithIgnoringCase(h, e)
  {
    if |e| <= |h| {
      var t := h[|h| - |e|..];
      assert t[|e| - 1] == h[|h| - 1];
      assert LowerAscii(e[|e| - 1]) != 'x';
    }
  }

  /** An element whose `src`
      is a non-empty string that does not resolve (a data: URL, say) and whose
      `data-src` resolves to an address without an image extension gets a
      thumb but no full, because the fallback resolves only the first
      non-empty string; it is then dropped instead of having its thumb copied
      into full. */
  lemma ThumbWithoutFullIsDropped(parse: Parser, el: Img, base: Url, href: string)
    requires Truthy(el.src) && ResolveUrl(parse, el.src, base) == None
    requires ResolveUrl(parse, el.dataSrc, base) == Some(href) && !LooksFullSized(href)
    requires el.srcset == None && el.dataFull == None && el.dataOriginal == None
    requires el.dataLarge == None && el.linkHref == None
    ensures ThumbOf(parse, el, base) == Some(href)
    ensures FullOf(parse, el, base) == None
    ensures ItemOf(parse, el, base) == None
  {
    SecondThumbResolves(parse, el, base, href);
    NoFullWithout(parse, el, base, href);
  }

  lemma SecondThumbResolves(parse: Parser, el: Img, base: Url, href: string)
    requires ResolveUrl(parse, el.src, base) == None && ResolveUrl(parse, el.dataSrc, base) == Some(href)
    ensures FirstResolved(parse, ThumbCandidates(el, PickFromSrcset(el.srcset)), base) == Some(href)
  {
    var thumbs := ThumbCandidates(el, PickFromSrcset(el.srcset));
    assert thumbs[1..][0] == el.dataSrc;
    assert FirstResolved(parse, thumbs[1..], base) == Some(href);
  }

  lemma NoFullWithout(parse: Parser, el: Img, base: Url, href: string)
    requires Truthy(el.src) && ResolveUrl(parse, el.src, base) == None
    requires ResolveUrl(parse, el.dataSrc, base) == Some(href) && !LooksFullSized(href)
    requires el.srcset == None && el.dataFull == None && el.dataOriginal == None
    requires el.dataLarge == None && el.linkHref == None
    ensures FullOf(parse, el, base) == None
  {
    var pick := PickFromSrcset(el.srcset);
    assert pick == SrcsetPick(None, None);
    var fulls := FullCandidates(el, pick);
    assert fulls == [None, None, None, el.src, el.dataSrc];
    assert FirstFullSized(parse, fulls[4..], base) == None by {
      assert fulls[4..][1..] == [];
    }
    assert FirstFullSized(parse, fulls[3..], base) == None by {
      assert fulls[3..][1..] == fulls[4..];
    }
    assert FirstFullSized(parse, fulls[2..], base) == None by {
      assert fulls[2..][1..] == fulls[3..];
    }
    assert FirstFullSized(parse, fulls[1..], base) == None by {
      assert fulls[1..][1..] == fulls[2..];
    }
    assert FallbackSource(el, pick) == el.src;
  }

  /** The case above happens: with a parser that resolves root-relative
      paths, `<img src="data:x" data-src="/x">` yields no item. */
  lemma DemoThumbWithoutFull()
    ensures ThumbOf(DemoParse, DemoElement, DemoBase) == Some("http://a/x")
    ensures ItemOf(DemoParse, DemoElement, DemoBase) == None
  {
    DemoResolvesPath();
    DemoRejectsData();
    DemoNotFullSized();
    ThumbWithoutFullIsDropped(DemoParse, DemoElement, DemoBase, "http://a/x");
  }
}
