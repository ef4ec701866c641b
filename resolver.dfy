/** The URL resolver of the discovery route: `resolveUrl` and the
    `IMAGE_EXT_REGEX`/keyword test that decides whether a resolved href looks
    like a full-size image. */
module Resolver {
  import opened Js

  /** The alternatives of `IMAGE_EXT_REGEX`, written out with their dot. */
  const ImageExtensions: seq<string> := [".jpg", ".jpeg", ".png", ".gif", ".webp", ".avif", ".svg"]

  /** The href was produced by the parser from some input against `base`, and
      its scheme is http or https. */
  ghost predicate IsResolvedHref(parse: Parser, base: Url, href: string)
  {
    exists raw :: parse(raw, Some(base)).Some? && IsAcceptedScheme(parse(raw, Some(base)).value.protocol)
                  && parse(raw, Some(base)).value.href == href
  }

  predicate IsInlineScheme(trimmed: string)
  {
    StartsWith(trimmed, "data:") || StartsWith(trimmed, "blob:")
  }

  /** `resolveUrl(raw, base)`: an absolute http(s) href, or None for an absent
      or blank input, a data: or blob: input, a parse failure, or any other
      scheme. */
  function ResolveUrl(parse: Parser, raw: Option<string>, base: Url): Option<string>
  {
    if !Truthy(raw) then None
    else
      var trimmed := Trim(raw.value);
      if trimmed == [] || IsInlineScheme(trimmed) then None
      else match parse(trimmed, Some(base))
        case None => None
        case Some(url) => if IsAcceptedScheme(url.protocol) then Some(url.href) else None
  }

  /** The rejection cases of resolveUrl, and what it returns otherwise. */
  lemma ResolveUrlSpec(parse: Parser, raw: Option<string>, base: Url)
    ensures ResolveUrl(parse, raw, base).Some? <==>
      && raw.Some? && !IsBlank(raw.value)
      && !IsInlineScheme(Trim(raw.value))
      && parse(Trim(raw.value), Some(base)).Some?
      && IsAcceptedScheme(parse(Trim(raw.value), Some(base)).value.protocol)
    ensures ResolveUrl(parse, raw, base).Some? ==>
      ResolveUrl(parse, raw, base).value == parse(Trim(raw.value), Some(base)).value.href
  {
  }

  /** Any non-null result is an http(s) href the parser produced against
      the base. */
  lemma ResolvedIsHttp(parse: Parser, raw: Option<string>, base: Url)
    ensures ResolveUrl(parse, raw, base).Some? ==> IsResolvedHref(parse, base, ResolveUrl(parse, raw, base).value)
  {
    if ResolveUrl(parse, raw, base).Some? {
      var t := Trim(raw.value);
      assert parse(t, Some(base)).value.href == ResolveUrl(parse, raw, base).value;
    }
  }

  /** White space around the raw attribute never changes the outcome. */
  lemma ResolveIgnoresSurroundingSpace(parse: Parser, raw: string, base: Url)
    ensures ResolveUrl(parse, Some(raw), base) == ResolveUrl(parse, Some(Trim(raw)), base)
  {
    var t := Trim(raw);
    TrimIdempotent(raw);
    if t == [] {
      assert ResolveUrl(parse, Some(t), base) == None;
    } else {
      assert Truthy(Some(raw)) && Truthy(Some(t));
    }
  }

  /** Whatever the parser does, data: and blob: inputs are rejected. */
  lemma InlineSchemesRejected(parse: Parser, raw: string, base: Url)
    requires StartsWith(Trim(raw), "data:") || StartsWith(Trim(raw), "blob:")
    ensures ResolveUrl(parse, Some(raw), base) == None
  {
  }

  /** `IMAGE_EXT_REGEX.test(href)`: the href ends, in any ASCII case, with one
      of the image extensions. */
  predicate HasImageExtension(href: string)
  {
    exists e :: e in ImageExtensions && EndsWithIgnoringCase(href, e)
  }

  /** The filter a `full` candidate must pass: an image extension, or the
      case-sensitive substrings "/orig" or "large". */
  predicate LooksFullSized(href: string)
  {
    HasImageExtension(href) || Contains(href, "/orig") || Contains(href, "large")
  }
}
