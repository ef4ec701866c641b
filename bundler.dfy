/** The bundling route (`POST /api/download`): it checks the list of
    addresses, then fetches them one after another, adding each body to the
    archive as `image-<position><ext>`, and fails as a whole when the bytes
    received pass 50 MiB or nothing was received. */
module Bundler {
  import opened Js

  const MAX_COUNT: nat := 100
  const MAX_TOTAL_BYTES: nat := 50 * 1024 * 1024

  newtype byte = x: int | 0 <= x < 256

  /** What `await fetch(href)` and `await res.arrayBuffer()` come to for one
      position: a rejected promise (network failure), a response whose `ok`
      is false, or the body bytes of an ok response. */
  datatype Fetched = Rejected | NotOk | Received(data: seq<byte>)

  /** The outcome of fetching the address at a position. */
  type Downloader = (nat, Url) -> Fetched

  /** One `zip.addFile(filename, buffer)`. */
  datatype Entry = Entry(name: string, data: seq<byte>)

  /** What the handler answers: a 400 with its error message, an exception
      that escapes the handler, or the archive with its entries in order. */
  datatype Bundle = Failure(message: string) | Aborted | Archive(entries: seq<Entry>)

  const NoUrlsMessage: string := "No urls provided"
  const TooManyMessage: string := "Too many urls (max " + Decimal(MAX_COUNT) + ")"
  const QuotaMessage: string := "Total download exceeds limit (" + Decimal(MAX_TOTAL_BYTES / 1024 / 1024) + "MB)"
  const NothingMessage: string := "Failed to download any image"

  /** The two computed messages spell the limits out in decimal. */
  lemma MessagesSpelledOut()
    ensures TooManyMessage == "Too many urls (max 100)"
    ensures QuotaMessage == "Total download exceeds limit (50MB)"
  {
    assert Decimal(100) == Decimal(10) + ['0'] && Decimal(10) == Decimal(1) + ['0'];
    assert Decimal(50) == Decimal(5) + ['0'];
  }

  // ---------------------------------------------------------------------------
  // safeUrl and the entry name

  /** `safeUrl(raw)`: `new URL(raw)` when it parses to an http(s) URL. */
  function SafeUrl(parse: Parser, raw: string): (r: Option<Url>)
    ensures r.Some? <==> parse(raw, None).Some? && IsAcceptedScheme(parse(raw, None).value.protocol)
    ensures r.Some? ==> r == parse(raw, None)
  {
    match parse(raw, None)
    case None => None
    case Some(url) => if IsAcceptedScheme(url.protocol) then Some(url) else None
  }

  /** `p` without its trailing slashes: only slashes are removed, and all of
      them. */
  function StripTrailingSlashes(p: string): (r: string)
    ensures |r| <= |p| && r == p[..|r|]
    ensures forall k :: |r| <= k < |p| ==> p[k] == '/'
    ensures r == [] || r[|r| - 1] != '/'
  {
    if p != [] && p[|p| - 1] == '/' then StripTrailingSlashes(p[..|p| - 1]) else p
  }

  /** The part of `p` after its last slash. */
  function LastSegment(p: string): (r: string)
    ensures |r| <= |p| && r == p[|p| - |r|..]
    ensures '/' !in r
    ensures |r| == |p| || p[|p| - |r| - 1] == '/'
  {
    if p == [] || p[|p| - 1] == '/' then [] else LastSegment(p[..|p| - 1]) + [p[|p| - 1]]
  }

  /** The index of the last dot of `s`. */
  function LastDot(s: string): (r: Option<nat>)
    ensures r.Some? ==> r.value < |s| && s[r.value] == '.' && '.' !in s[r.value + 1..]
    ensures r.None? ==> '.' !in s
  {
    if s == [] then None
    else if s[|s| - 1] == '.' then Some(|s| - 1)
    else
      var r := LastDot(s[..|s| - 1]);
      assert r.Some? ==> s[r.value + 1..] == s[..|s| - 1][r.value + 1..] + [s[|s| - 1]];
      r
  }

  /** Node's POSIX `path.extname(p)`: from the last dot of the last segment
      (trailing slashes ignored) to its end, or "" when that segment has no
      dot, starts with its only dot, or is "..". */
  function Extname(p: string): string
  {
    SegmentExtension(LastSegment(StripTrailingSlashes(p)))
  }

  /** The extension of one path segment. */
  function SegmentExtension(base: string): string
  {
    match LastDot(base)
    case None => ""
    case Some(d) => if d == 0 || base == ".." then "" else base[d..]
  }

  /** An extension is empty or a dot followed by no slash and no dot. */
  lemma ExtnameShape(p: string)
    ensures var e := Extname(p);
      e == [] || (e[0] == '.' && '/' !in e && '.' !in e[1..])
  {
    SegmentExtensionShape(LastSegment(StripTrailingSlashes(p)));
  }

  /** The extension of a segment is empty or a dot and what follows it
      up to the end, with no further dot, and the segment keeps a non-empty
      name before it. */
  lemma SegmentExtensionShape(base: string)
    ensures var e := SegmentExtension(base);
      e == [] || (e[0] == '.' && '.' !in e[1..])
    ensures '/' !in base ==> '/' !in SegmentExtension(base)
    ensures var e := SegmentExtension(base);
      e != [] ==> |e| < |base| && e == base[|base| - |e|..]
  {
    match LastDot(base)
    case None =>
    case Some(d) =>
      if d != 0 && base != ".." {
        assert base[d..][1..] == base[d + 1..];
      }
  }

  /** The last segment of a path ending in `/seg` is `seg`. */
  lemma {:induction false} LastSegmentAfterSlash(pre: string, seg: string)
    requires '/' !in seg
    ensures LastSegment(pre + "/" + seg) == seg
  {
    var p := pre + "/" + seg;
    if seg != [] {
      var init := seg[..|seg| - 1];
      assert p[..|p| - 1] == pre + "/" + init;
      LastSegmentAfterSlash(pre, init);
      assert init + [seg[|seg| - 1]] == seg;
    } else {
      assert p[|p| - 1] == '/';
    }
  }

  /** The last dot of `stem.ext`, when `ext` holds no dot, is after `stem`. */
  lemma {:induction false} LastDotBefore(stem: string, ext: string)
    requires '.' !in ext
    ensures LastDot(stem + "." + ext) == Some(|stem|)
  {
    var s := stem + "." + ext;
    if ext != [] {
      var init := ext[..|ext| - 1];
      assert s[..|s| - 1] == stem + "." + init;
      LastDotBefore(stem, init);
    }
  }

  /** Node's `path.extname("/a/b.png")` is ".png". */
  lemma ExtnameOfFile()
    ensures Extname("/a/b.png") == ".png"
  {
    assert "/a/b.png" == "/a" + "/" + "b.png";
    LastSegmentAfterSlash("/a", "b.png");
    assert "b.png" == "b" + "." + "png";
    LastDotBefore("b", "png");
  }

  /** A name whose only dot leads it has no extension: `path.extname("/a/.png")`
      is "". */
  lemma ExtnameOfDotFile()
    ensures Extname("/a/.png") == ""
  {
    assert "/a/.png" == "/a" + "/" + ".png";
    LastSegmentAfterSlash("/a", ".png");
    assert ".png" == "" + "." + "png";
    LastDotBefore("", "png");
  }

  /** Only the last segment counts: `path.extname("/a.b/c")` is "". */
  lemma ExtnameOfDottedDirectory()
    ensures Extname("/a.b/c") == ""
  {
    assert "/a.b/c" == "/a.b" + "/" + "c";
    LastSegmentAfterSlash("/a.b", "c");
  }

  /** `path.extname(pathname) || ".jpg"`. */
  function Extension(pathname: string): (r: string)
    ensures |r| > 0 && r[0] == '.' && '/' !in r
  {
    ExtnameShape(pathname);
    var e := Extname(pathname);
    if e != [] then e else ".jpg"
  }

  /** `image-${i + 1}${ext}`. */
  function EntryName(i: nat, url: Url): string
  {
    "image-" + Decimal(i + 1) + Extension(url.pathname)
  }

  /** Two names made of "image-", decimal digits and a suffix starting
      with a dot have the same digits when they are equal. */
  lemma NumberedNamesAgree(a: string, ea: string, b: string, eb: string)
    requires forall k :: 0 <= k < |a| ==> IsDigit(a[k])
    requires forall k :: 0 <= k < |b| ==> IsDigit(b[k])
    requires |ea| > 0 && ea[0] == '.' && |eb| > 0 && eb[0] == '.'
    requires "image-" + a + ea == "image-" + b + eb
    ensures a == b
  {
    var n := "image-" + a + ea;
    var m := "image-" + b + eb;
    assert a == n[6..6 + |a|];
    assert b == m[6..6 + |b|];
  }

  /** The digits inside a name are exactly `i + 1`, so two positions never
      share a name. */
  lemma EntryNameInjective(i: nat, u: Url, j: nat, v: Url)
    requires EntryName(i, u) == EntryName(j, v)
    ensures i == j
  {
    NumberedNamesAgree(Decimal(i + 1), Extension(u.pathname), Decimal(j + 1), Extension(v.pathname));
    DecimalInjective(i + 1, j + 1);
  }

  // ---------------------------------------------------------------------------
  // The loop as the handler runs it

  /** The address the loop fetches for an input, or None when it skips it
      (not a string, or rejected by safeUrl). */
  function Slot(parse: Parser, candidate: Json): (r: Option<Url>)
    ensures r.Some? <==> candidate.JString? && SafeUrl(parse, candidate.s).Some?
    ensures r.Some? ==> r == SafeUrl(parse, candidate.s)
  {
    if candidate.JString? then SafeUrl(parse, candidate.s) else None
  }

  /** A body the loop received: its input position, its address and its
      bytes. */
  datatype Download = Download(position: nat, url: Url, data: seq<byte>)

  /** The archive entry a received body becomes. */
  function EntryOf(d: Download): Entry
  {
    Entry(EntryName(d.position, d.url), d.data)
  }

  function EntriesOf(ds: seq<Download>): (r: seq<Entry>)
    ensures |r| == |ds|
    ensures forall k :: 0 <= k < |ds| ==> r[k] == EntryOf(ds[k])
  {
    seq(|ds|, k requires 0 <= k < |ds| => EntryOf(ds[k]))
  }

  lemma EntriesOfAppend(ds: seq<Download>, d: Download)
    ensures EntriesOf(ds + [d]) == EntriesOf(ds) + [EntryOf(d)]
  {
  }

  /** Whether the loop goes on, or why it left before the end of the list. */
  datatype Status = Running | Thrown | OverQuota

  /** The loop's state after a prefix of the inputs: `totalBytes`, the
      bodies added to the archive, the positions fetched so far, and whether
      the handler has already left the loop by an exception or by the byte
      limit. */
  datatype Progress = Progress(total: nat, downloads: seq<Download>, requested: seq<nat>, status: Status)

  function Run(parse: Parser, dl: Downloader, urls: seq<Json>, n: nat): Progress
    requires n <= |urls|
  {
    if n == 0 then Progress(0, [], [], Running)
    else
      var prev := Run(parse, dl, urls, n - 1);
      if !prev.status.Running? then prev
      else
        match Slot(parse, urls[n - 1])
        case None => prev
        case Some(u) =>
          var requested := prev.requested + [n - 1];
          match dl(n - 1, u)
          case Rejected => prev.(requested := requested, status := Thrown)
          case NotOk => prev.(requested := requested)
          case Received(data) =>
            if prev.total + |data| > MAX_TOTAL_BYTES then prev.(requested := requested, status := OverQuota)
            else Progress(prev.total + |data|, prev.downloads + [Download(n - 1, u, data)], requested, Running)
  }

  predicate IsValidList(urlsField: Option<Json>)
  {
    urlsField.Some? && urlsField.value.JArray? && |urlsField.value.items| > 0
  }

  /** The handler's answer for the body's `urls` field (None when it is
      missing or the body is not JSON). */
  function BundleOf(parse: Parser, dl: Downloader, urlsField: Option<Json>): Bundle
  {
    if !IsValidList(urlsField) then Failure(NoUrlsMessage)
    else if |urlsField.value.items| > MAX_COUNT then Failure(TooManyMessage)
    else
      var urls := urlsField.value.items;
      Conclude(Run(parse, dl, urls, |urls|))
  }

  /** The answer once the loop has stopped or run to the end. */
  function Conclude(p: Progress): Bundle
  {
    match p.status
    case Thrown => Aborted
    case OverQuota => Failure(QuotaMessage)
    case Running => if |p.downloads| == 0 then Failure(NothingMessage) else Archive(EntriesOf(p.downloads))
  }

  /** The positions the handler fetches for the body's `urls` field. */
  function RequestsOf(parse: Parser, dl: Downloader, urlsField: Option<Json>): seq<nat>
  {
    if !IsValidList(urlsField) || |urlsField.value.items| > MAX_COUNT then []
    else Run(parse, dl, urlsField.value.items, |urlsField.value.items|).requested
  }

  /** A stopped loop stays stopped and fetches nothing more. */
  lemma {:induction false} RunStopped(parse: Parser, dl: Downloader, urls: seq<Json>, i: nat, n: nat)
    requires i <= n <= |urls| && !Run(parse, dl, urls, i).status.Running?
    ensures Run(parse, dl, urls, n) == Run(parse, dl, urls, i)
  {
    if n > i {
      RunStopped(parse, dl, urls, i, n - 1);
    }
  }

  /** One turn of the loop at position `i` when it has not stopped. */
  lemma RunStep(parse: Parser, dl: Downloader, urls: seq<Json>, i: nat)
    requires i < |urls| && Run(parse, dl, urls, i).status.Running?
    ensures var p := Run(parse, dl, urls, i);
      var q := Run(parse, dl, urls, i + 1);
      && (Slot(parse, urls[i]).None? ==> q == p)
      && (Slot(parse, urls[i]).Some? ==> q.requested == p.requested + [i])
      && (Slot(parse, urls[i]).Some? && dl(i, Slot(parse, urls[i]).value).Rejected? ==>
            q.status == Thrown)
      && (Slot(parse, urls[i]).Some? && dl(i, Slot(parse, urls[i]).value).NotOk? ==>
            q.status.Running? && q.total == p.total && q.downloads == p.downloads)
      && (Slot(parse, urls[i]).Some? && dl(i, Slot(parse, urls[i]).value).Received? ==>
            var data := dl(i, Slot(parse, urls[i]).value).data;
            && (q.status == OverQuota <==> p.total + |data| > MAX_TOTAL_BYTES)
            && (q.status != Thrown)
            && (p.total + |data| <= MAX_TOTAL_BYTES ==>
                  q.status.Running? && q.total == p.total + |data|
                  && q.downloads == p.downloads + [Download(i, Slot(parse, urls[i]).value, data)]))
  {
    assert urls[..i + 1][i] == urls[i];
  }

  /** The file name the handler builds for position `i`. */
  lemma FileNameIsEntryName(i: nat, url: Url, ext: string)
    requires ext == (if Extname(url.pathname) == "" then ".jpg" else Extname(url.pathname))
    ensures "image-" + Decimal(i + 1) + ext == EntryName(i, url)
  {
  }

  /** `POST(req)`: the answer and, in order, the positions it fetched. */
  method Post(parse: Parser, dl: Downloader, urlsField: Option<Json>) returns (outcome: Bundle, requested: seq<nat>)
    ensures outcome == BundleOf(parse, dl, urlsField)
    ensures requested == RequestsOf(parse, dl, urlsField)
  {
    if urlsField.None? || !urlsField.value.JArray? || |urlsField.value.items| == 0 {
      return Failure(NoUrlsMessage), [];
    }
    var urls := urlsField.value.items;
    if |urls| > MAX_COUNT {
      return Failure(TooManyMessage), [];
    }
    var entries: seq<Entry> := [];
    ghost var downloads: seq<Download> := [];
    var totalBytes: nat := 0;
    var added: nat := 0;
    requested := [];
    for i := 0 to |urls|
      invariant Run(parse, dl, urls, i) == Progress(totalBytes, downloads, requested, Running)
      invariant entries == EntriesOf(downloads)
      invariant added == |entries|
    {
      var status;
      status, totalBytes, entries, added, requested, downloads :=
        Turn(parse, dl, urls, i, totalBytes, entries, added, requested, downloads);
      if status == Thrown {
        RunStopped(parse, dl, urls, i + 1, |urls|);
        return Aborted, requested;
      }
      if status == OverQuota {
        RunStopped(parse, dl, urls, i + 1, |urls|);
        return Failure(QuotaMessage), requested;
      }
    }
    if added == 0 {
      return Failure(NothingMessage), requested;
    }
    outcome := Archive(entries);
  }

  /** One turn of the handler's loop over the urls, at position `i`: the
      fetch, the byte count, the file name and the new archive entry. A
      rejected fetch or the byte limit is reported in `status`. */
  method Turn(parse: Parser, dl: Downloader, urls: seq<Json>, i: nat, totalBytes: nat, entries: seq<Entry>,
              added: nat, requested: seq<nat>, ghost downloads: seq<Download>)
    returns (status: Status, totalBytes1: nat, entries1: seq<Entry>, added1: nat, requested1: seq<nat>,
             ghost downloads1: seq<Download>)
    requires i < |urls| && Run(parse, dl, urls, i) == Progress(totalBytes, downloads, requested, Running)
    requires entries == EntriesOf(downloads) && added == |entries|
    ensures Run(parse, dl, urls, i + 1).status == status
    ensures Run(parse, dl, urls, i + 1).requested == requested1
    ensures status.Running? ==> Run(parse, dl, urls, i + 1) == Progress(totalBytes1, downloads1, requested1, Running)
    ensures entries1 == EntriesOf(downloads1) && added1 == |entries1|
  {
    RunStep(parse, dl, urls, i);
    status, totalBytes1, entries1, added1, requested1, downloads1 := Running, totalBytes, entries, added, requested, downloads;
    var candidate := urls[i];
    if !candidate.JString? {
      return;
    }
    var parsed := SafeUrl(parse, candidate.s);
    if parsed.None? {
      return;
    }
    requested1 := requested + [i];
    var res := dl(i, parsed.value);
    if res.Rejected? {
      status := Thrown;
      return;
    }
    if res.NotOk? {
      return;
    }
    totalBytes1 := totalBytes + |res.data|;
    if totalBytes1 > MAX_TOTAL_BYTES {
      status := OverQuota;
      return;
    }
    var ext := Extname(parsed.value.pathname);
    if ext == "" {
      ext := ".jpg";
    }
    var filename := "image-" + Decimal(i + 1) + ext;
    FileNameIsEntryName(i, parsed.value, ext);
    EntriesOfAppend(downloads, Download(i, parsed.value, res.data));
    entries1 := entries + [Entry(filename, res.data)];
    downloads1 := downloads + [Download(i, parsed.value, res.data)];
    added1 := added + 1;
  }

  /** The two count checks come before the loop: a refused list fetches
      nothing. */
  lemma ValidationFirst(parse: Parser, dl: Downloader, urlsField: Option<Json>)
    ensures !IsValidList(urlsField) ==> BundleOf(parse, dl, urlsField) == Failure(NoUrlsMessage)
    ensures IsValidList(urlsField) && |urlsField.value.items| > MAX_COUNT ==>
      BundleOf(parse, dl, urlsField) == Failure(TooManyMessage)
    ensures !IsValidList(urlsField) || |urlsField.value.items| > MAX_COUNT ==> RequestsOf(parse, dl, urlsField) == []
  {
  }

  /** The positions fetched are increasing positions of string inputs that
      safeUrl accepts. */
  lemma {:induction false} RequestedPositions(parse: Parser, dl: Downloader, urls: seq<Json>, n: nat)
    requires n <= |urls|
    ensures var rs := Run(parse, dl, urls, n).requested;
      && (forall k, l :: 0 <= k < l < |rs| ==> rs[k] < rs[l])
      && forall k :: 0 <= k < |rs| ==> rs[k] < n && Slot(parse, urls[rs[k]]).Some?
  {
    if n > 0 {
      RequestedPositions(parse, dl, urls, n - 1);
      if Run(parse, dl, urls, n - 1).status.Running? {
        RunStep(parse, dl, urls, n - 1);
      }
    }
  }

  // ---------------------------------------------------------------------------
  // The reference definition: the archive of the successful positions

  /** The body received at position `i`, when the loop fetches it and the
      response is ok. */
  function Success(parse: Parser, dl: Downloader, urls: seq<Json>, i: nat): Option<seq<byte>>
    requires i < |urls|
  {
    match Slot(parse, urls[i])
    case None => None
    case Some(u) => if dl(i, u).Received? then Some(dl(i, u).data) else None
  }

  /** The positions below `n` with a successful fetch, in increasing order. */
  function SuccessPositions(parse: Parser, dl: Downloader, urls: seq<Json>, n: nat): (r: seq<nat>)
    requires n <= |urls|
    ensures forall k :: 0 <= k < |r| ==> r[k] < n && Success(parse, dl, urls, r[k]).Some?
  {
    if n == 0 then []
    else if Success(parse, dl, urls, n - 1).Some? then SuccessPositions(parse, dl, urls, n - 1) + [n - 1]
    else SuccessPositions(parse, dl, urls, n - 1)
  }

  function DownloadAt(parse: Parser, dl: Downloader, urls: seq<Json>, i: nat): Download
    requires i < |urls| && Success(parse, dl, urls, i).Some?
  {
    Download(i, Slot(parse, urls[i]).value, Success(parse, dl, urls, i).value)
  }

  /** The bodies of the successful positions below `n`, in input order. */
  function Successes(parse: Parser, dl: Downloader, urls: seq<Json>, n: nat): (r: seq<Download>)
    requires n <= |urls|
    ensures |r| == |SuccessPositions(parse, dl, urls, n)|
  {
    var ps := SuccessPositions(parse, dl, urls, n);
    seq(|ps|, k requires 0 <= k < |ps| => DownloadAt(parse, dl, urls, ps[k]))
  }

  /** The number of bytes received. */
  function SizeOf(ds: seq<Download>): nat
  {
    if ds == [] then 0 else SizeOf(ds[..|ds| - 1]) + |ds[|ds| - 1].data|
  }

  lemma SizeOfAppend(ds: seq<Download>, d: Download)
    ensures SizeOf(ds + [d]) == SizeOf(ds) + |d.data|
  {
    assert (ds + [d])[..|ds|] == ds;
  }

  /** No fetch among the first `n` positions is rejected. */
  predicate NoRejection(parse: Parser, dl: Downloader, urls: seq<Json>, n: nat)
    requires n <= |urls|
  {
    forall i :: 0 <= i < n ==> Slot(parse, urls[i]).None? || !dl(i, Slot(parse, urls[i]).value).Rejected?
  }

  /** The successful positions are strictly increasing, and a position is
      among them exactly when its fetch succeeded. */
  lemma {:induction false} SuccessPositionsSpec(parse: Parser, dl: Downloader, urls: seq<Json>, n: nat)
    requires n <= |urls|
    ensures var ps := SuccessPositions(parse, dl, urls, n);
      && (forall k, l :: 0 <= k < l < |ps| ==> ps[k] < ps[l])
      && (forall i :: 0 <= i < n ==> (i in ps <==> Success(parse, dl, urls, i).Some?))
  {
    if n > 0 {
      SuccessPositionsSpec(parse, dl, urls, n - 1);
    }
  }

  lemma SuccessesStep(parse: Parser, dl: Downloader, urls: seq<Json>, n: nat)
    requires n < |urls|
    ensures Success(parse, dl, urls, n).Some? ==>
      Successes(parse, dl, urls, n + 1) == Successes(parse, dl, urls, n) + [DownloadAt(parse, dl, urls, n)]
    ensures Success(parse, dl, urls, n).None? ==>
      Successes(parse, dl, urls, n + 1) == Successes(parse, dl, urls, n)
  {
    var ps := SuccessPositions(parse, dl, urls, n);
    if Success(parse, dl, urls, n).Some? {
      assert SuccessPositions(parse, dl, urls, n + 1) == ps + [n];
    }
  }

  /** What the loop holds after `n` positions when none was rejected: the
      bodies of the successful positions and their byte count, with a stop
      on the limit exactly when that count passes 50 MiB. */
  predicate NoRejectionState(parse: Parser, dl: Downloader, urls: seq<Json>, n: nat)
    requires n <= |urls|
  {
    var s := Successes(parse, dl, urls, n);
    var p := Run(parse, dl, urls, n);
    && p.status != Thrown
    && (p.status == OverQuota <==> SizeOf(s) > MAX_TOTAL_BYTES)
    && (p.status.Running? ==> p.total == SizeOf(s) && p.downloads == s)
  }

  lemma NoRejectionStep(parse: Parser, dl: Downloader, urls: seq<Json>, n: nat)
    requires 0 < n <= |urls| && NoRejectionState(parse, dl, urls, n - 1)
    requires NoRejection(parse, dl, urls, n)
    ensures NoRejectionState(parse, dl, urls, n)
  {
    var m := n - 1;
    assert Slot(parse, urls[m]).None? || !dl(m, Slot(parse, urls[m]).value).Rejected?;
    SuccessesStep(parse, dl, urls, m);
    var s0 := Successes(parse, dl, urls, m);
    if Success(parse, dl, urls, m).Some? {
      SizeOfAppend(s0, DownloadAt(parse, dl, urls, m));
    }
    if Run(parse, dl, urls, m).status.Running? {
      RunStep(parse, dl, urls, m);
    } else {
      RunStopped(parse, dl, urls, m, n);
      var s1 := Successes(parse, dl, urls, n);
      var p := Run(parse, dl, urls, m);
      assert p.status == OverQuota;
      assert SizeOf(s0) > MAX_TOTAL_BYTES;
      assert SizeOf(s1) >= SizeOf(s0);
    }
  }

  /** Without a rejected fetch, the loop holds the bodies of the successful
      positions and their byte count, and it stops on the limit exactly when
      that count passes 50 MiB. */
  lemma {:induction false} RunWithoutRejection(parse: Parser, dl: Downloader, urls: seq<Json>, n: nat)
    requires n <= |urls| && NoRejection(parse, dl, urls, n)
    ensures NoRejectionState(parse, dl, urls, n)
  {
    if n > 0 {
      assert NoRejection(parse, dl, urls, n - 1);
      RunWithoutRejection(parse, dl, urls, n - 1);
      NoRejectionStep(parse, dl, urls, n);
    }
  }

  /** A rejected fetch reached by the loop makes the whole request fail with
      an escaped exception, whatever the later positions hold. */
  lemma RejectionAborts(parse: Parser, dl: Downloader, urls: seq<Json>, i: nat)
    requires i < |urls| && NoRejection(parse, dl, urls, i)
    requires SizeOf(Successes(parse, dl, urls, i)) <= MAX_TOTAL_BYTES
    requires Slot(parse, urls[i]).Some? && dl(i, Slot(parse, urls[i]).value) == Rejected
    ensures Run(parse, dl, urls, |urls|).status == Thrown
  {
    RunWithoutRejection(parse, dl, urls, i);
    var p := Run(parse, dl, urls, i);
    assert p.status.Running?;
    RejectionAt(parse, dl, urls, i);
    RunStopped(parse, dl, urls, i + 1, |urls|);
  }

  lemma RejectionAt(parse: Parser, dl: Downloader, urls: seq<Json>, i: nat)
    requires i < |urls| && Run(parse, dl, urls, i).status.Running?
    requires Slot(parse, urls[i]).Some? && dl(i, Slot(parse, urls[i]).value) == Rejected
    ensures Run(parse, dl, urls, i + 1).status == Thrown
  {
    RunStep(parse, dl, urls, i);
  }

  /** A loop that ran to the end met no rejected fetch. */
  lemma {:induction false} RunningMeansNoRejection(parse: Parser, dl: Downloader, urls: seq<Json>, n: nat)
    requires n <= |urls| && Run(parse, dl, urls, n).status.Running?
    ensures NoRejection(parse, dl, urls, n)
  {
    if n > 0 {
      RunningMeansNoRejection(parse, dl, urls, n - 1);
    }
  }

  /** The entries of the successful positions have pairwise distinct names. */
  lemma SuccessNamesUnique(parse: Parser, dl: Downloader, urls: seq<Json>, n: nat)
    requires n <= |urls|
    ensures var es := EntriesOf(Successes(parse, dl, urls, n));
      forall k, l :: 0 <= k < l < |es| ==> es[k].name != es[l].name
  {
    var ps := SuccessPositions(parse, dl, urls, n);
    var s := Successes(parse, dl, urls, n);
    var es := EntriesOf(s);
    SuccessPositionsSpec(parse, dl, urls, n);
    forall k, l | 0 <= k < l < |es|
      ensures es[k].name != es[l].name
    {
      assert s[k].position == ps[k] && s[l].position == ps[l];
      if es[k].name == es[l].name {
        EntryNameInjective(ps[k], s[k].url, ps[l], s[l].url);
      }
    }
  }

  /** The outcome of a request in which no fetch is rejected: the archive of
      every successful position in input order when their bytes stay within
      50 MiB and there is at least one; otherwise the limit error or the
      "nothing downloaded" error. */
  lemma BundleWithoutRejection(parse: Parser, dl: Downloader, urlsField: Option<Json>)
    requires IsValidList(urlsField) && |urlsField.value.items| <= MAX_COUNT
    requires NoRejection(parse, dl, urlsField.value.items, |urlsField.value.items|)
    ensures var urls := urlsField.value.items;
      var s := Successes(parse, dl, urls, |urls|);
      var b := BundleOf(parse, dl, urlsField);
      && (b == Failure(QuotaMessage) <==> SizeOf(s) > MAX_TOTAL_BYTES)
      && (b == Failure(NothingMessage) <==> SizeOf(s) <= MAX_TOTAL_BYTES && s == [])
      && (b.Archive? <==> SizeOf(s) <= MAX_TOTAL_BYTES && s != [])
      && (b.Archive? ==> b.entries == EntriesOf(s))
  {
    var urls := urlsField.value.items;
    RunWithoutRejection(parse, dl, urls, |urls|);
    assert QuotaMessage != NothingMessage by {
      assert QuotaMessage[0] != NothingMessage[0];
    }
  }

  /** Each successful body is the one received at its position, from that
      position's address, and the positions increase. */
  lemma SuccessesReceived(parse: Parser, dl: Downloader, urls: seq<Json>, n: nat)
    requires n <= |urls|
    ensures var s := Successes(parse, dl, urls, n);
      && |s| <= n
      && (forall k, l :: 0 <= k < l < |s| ==> s[k].position < s[l].position)
      && forall k :: 0 <= k < |s| ==>
        && s[k].position < n
        && Slot(parse, urls[s[k].position]) == Some(s[k].url)
        && dl(s[k].position, s[k].url) == Received(s[k].data)
  {
    var ps := SuccessPositions(parse, dl, urls, n);
    var s := Successes(parse, dl, urls, n);
    SuccessPositionsSpec(parse, dl, urls, n);
    PositionsBounded(ps, n);
    assert forall k :: 0 <= k < |s| ==> s[k] == DownloadAt(parse, dl, urls, ps[k]);
  }

  /** An archive holds the entries of the successful positions in input
      order, under pairwise distinct names, between 1 and 100 of them and no
      more than the inputs. */
  lemma ArchiveEntries(parse: Parser, dl: Downloader, urlsField: Option<Json>)
    requires BundleOf(parse, dl, urlsField).Archive?
    ensures var urls := urlsField.value.items;
      var es := BundleOf(parse, dl, urlsField).entries;
      && es == EntriesOf(Successes(parse, dl, urls, |urls|))
      && 1 <= |es| <= |urls| <= MAX_COUNT
      && (forall k, l :: 0 <= k < l < |es| ==> es[k].name != es[l].name)
  {
    var urls := urlsField.value.items;
    RunningMeansNoRejection(parse, dl, urls, |urls|);
    BundleWithoutRejection(parse, dl, urlsField);
    SuccessNamesUnique(parse, dl, urls, |urls|);
    SuccessesReceived(parse, dl, urls, |urls|);
  }

  /** Strictly increasing positions below `n` number at most `n`. */
  lemma {:induction false} PositionsBounded(ps: seq<nat>, n: nat)
    requires forall k :: 0 <= k < |ps| ==> ps[k] < n
    requires forall k, l :: 0 <= k < l < |ps| ==> ps[k] < ps[l]
    ensures |ps| <= n
  {
    if ps != [] {
      var last := ps[|ps| - 1];
      PositionsBounded(ps[..|ps| - 1], last);
    }
  }
}
