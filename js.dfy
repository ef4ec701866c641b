/** JavaScript and Web-platform primitives shared by the two route handlers:
    optional values, the JSON shapes the handlers inspect, WHATWG URLs (left
    uninterpreted), `String.prototype.trim`, `String.prototype.split` on one
    character, and the decimal rendering of a number in a template literal. */
module Js {

  datatype Option<+T> = None | Some(value: T)

  /** A JSON value as `req.json()` yields it. Numbers, booleans and objects are
      folded into JOther: the handlers only ask whether a value is null, a
      string or an array. */
  datatype Json = JNull | JString(s: string) | JArray(items: seq<Json>) | JOther

  /** A serialised WHATWG URL always holds at least its scheme and a colon, so
      it is never the empty (falsy) string. */
  type Href = s: string | |s| > 0 witness "a:"

  /** The fields of a parsed `URL` object the core reads. */
  datatype Url = Url(protocol: string, href: Href, pathname: string)

  /** `new URL(input, base)`, or `new URL(input)` when the base is None; None
      when the constructor throws. The URL standard's parser is not part of
      this model: it is a parameter, and every result holds for every parser
      whose hrefs are non-empty, as serialised URLs are. */
  type Parser = (string, Option<Url>) -> Option<Url>

  /** Membership in the `ACCEPT_SCHEMES` set of both route files. */
  predicate IsAcceptedScheme(protocol: string)
  {
    protocol == "http:" || protocol == "https:"
  }

  /** JavaScript string truthiness of an optional string: undefined and ""
      are falsy. */
  predicate Truthy(s: Option<string>)
  {
    s.Some? && s.value != []
  }

  /** `a || b` on optional strings. */
  function Or(a: Option<string>, b: Option<string>): (r: Option<string>)
    ensures Truthy(a) ==> r == a
    ensures !Truthy(a) ==> r == b
  {
    if Truthy(a) then a else b
  }

  // ---------------------------------------------------------------------------
  // String.prototype.trim

  /** The characters `trim` removes: ECMAScript WhiteSpace (tab, vertical tab,
      form feed, space, no-break space, the byte-order mark and every Unicode
      space separator) and LineTerminator (LF, CR, LS, PS). */
  predicate IsSpace(c: char)
  {
    var n := c as int;
    n == 0x09 || n == 0x0A || n == 0x0B || n == 0x0C || n == 0x0D || n == 0x20
    || n == 0xA0 || n == 0x1680 || (0x2000 <= n <= 0x200A) || n == 0x2028
    || n == 0x2029 || n == 0x202F || n == 0x205F || n == 0x3000 || n == 0xFEFF
  }

  predicate IsBlank(s: string)
  {
    forall k :: 0 <= k < |s| ==> IsSpace(s[k])
  }

  /** Drops leading white space: the result is the longest suffix of `s` that
      starts with a non-space character (or is empty). */
  function TrimStart(s: string): (r: string)
    ensures |r| <= |s| && r == s[|s| - |r|..]
    ensures r == [] || !IsSpace(r[0])
    ensures forall k :: 0 <= k < |s| - |r| ==> IsSpace(s[k])
  {
    if s != [] && IsSpace(s[0]) then TrimStart(s[1..]) else s
  }

  /** Drops trailing white space: the result is the longest prefix of `s` that
      ends with a non-space character (or is empty). */
  function TrimEnd(s: string): (r: string)
    ensures |r| <= |s| && r == s[..|r|]
    ensures r == [] || !IsSpace(r[|r| - 1])
    ensures forall k :: |r| <= k < |s| ==> IsSpace(s[k])
  {
    if s != [] && IsSpace(s[|s| - 1]) then TrimEnd(s[..|s| - 1]) else s
  }

  /** The number of white-space characters `s` starts with. */
  function Lead(s: string): (n: nat)
    ensures n <= |s|
    ensures forall k :: 0 <= k < n ==> IsSpace(s[k])
    ensures n == |s| || !IsSpace(s[n])
  {
    var t := TrimStart(s);
    assert t != [] ==> t[0] == s[|s| - |t|];
    |s| - |t|
  }

  /** `TrimStart` drops exactly the leading white space. */
  lemma TrimStartLead(s: string)
    ensures TrimStart(s) == s[Lead(s)..]
  {
  }

  /** `TrimEnd` keeps a prefix and drops only white space after it. */
  lemma TrimEndDropsBlank(t: string)
    ensures IsBlank(t[|TrimEnd(t)|..])
  {
    var tail := t[|TrimEnd(t)|..];
    forall k | 0 <= k < |tail|
      ensures IsSpace(tail[k])
    {
      assert tail[k] == t[|TrimEnd(t)| + k];
    }
  }

  /** Trimming both ends leaves non-space ends, and nothing exactly when `s`
      is all white space. */
  lemma TrimBothEnds(s: string)
    ensures var r := TrimEnd(TrimStart(s));
      && (r == [] || (!IsSpace(r[0]) && !IsSpace(r[|r| - 1])))
      && (r == [] <==> IsBlank(s))
  {
    var t := TrimStart(s);
    var r := TrimEnd(t);
    assert r != [] ==> r[0] == t[0];
    assert IsBlank(s) ==> t == [] by {
      if t != [] {
        assert t[0] == s[|s| - |t|];
      }
    }
  }

  /** `s.trim()`: `s` with the white space removed from each end. The result
      starts after the leading white space, only white space follows it, and
      neither of its ends is white space; it is empty exactly when `s` is all
      white space. */
  function Trim(s: string): (r: string)
    ensures |r| <= |s| - Lead(s) && r == s[Lead(s)..][..|r|]
    ensures IsBlank(s[Lead(s)..][|r|..])
    ensures r == [] || (!IsSpace(r[0]) && !IsSpace(r[|r| - 1]))
    ensures r == [] <==> IsBlank(s)
  {
    TrimStartLead(s);
    TrimEndDropsBlank(TrimStart(s));
    TrimBothEnds(s);
    TrimEnd(TrimStart(s))
  }

  lemma TrimmedIsFixed(s: string)
    requires s == [] || (!IsSpace(s[0]) && !IsSpace(s[|s| - 1]))
    ensures Trim(s) == s
  {
  }

  /** Trimming twice is trimming once. */
  lemma TrimIdempotent(s: string)
    ensures Trim(Trim(s)) == Trim(s)
  {
    TrimmedIsFixed(Trim(s));
  }

  // ---------------------------------------------------------------------------
  // Prefixes, infixes and ASCII case

  predicate StartsWith(s: string, prefix: string)
  {
    |prefix| <= |s| && s[..|prefix|] == prefix
  }

  /** `s.includes(sub)`. */
  predicate Contains(s: string, sub: string)
  {
    StartsWith(s, sub) || (s != [] && Contains(s[1..], sub))
  }

  /** A string that lacks one of the characters of `sub` does not contain it. */
  lemma {:induction false} NotContainsMissing(s: string, sub: string, c: char)
    requires c in sub && c !in s
    ensures !Contains(s, sub)
  {
    if s != [] {
      NotContainsMissing(s[1..], sub, c);
    }
  }

  /** The case folding of a regular expression with the `i` flag and without
      `u`: only ASCII letters fold, since a non-ASCII character never
      canonicalises to an ASCII one. */
  function LowerAscii(c: char): char
  {
    if 'A' <= c <= 'Z' then (c as int + 32) as char else c
  }

  predicate EqualsIgnoringCase(a: string, b: string)
  {
    |a| == |b| && forall k :: 0 <= k < |a| ==> LowerAscii(a[k]) == LowerAscii(b[k])
  }

  predicate EndsWithIgnoringCase(s: string, suffix: string)
  {
    |suffix| <= |s| && EqualsIgnoringCase(s[|s| - |suffix|..], suffix)
  }

  // ---------------------------------------------------------------------------
  // String.prototype.split with a one-character separator

  /** `s.split(sep)`: the maximal runs between separators, from left to right. */
  function Split(s: string, sep: char): (r: seq<string>)
    ensures |r| >= 1
  {
    if s == [] then [[]]
    else
      var rest := Split(s[1..], sep);
      if s[0] == sep then [[]] + rest else [[s[0]] + rest[0]] + rest[1..]
  }

  /** No piece holds the separator. */
  lemma {:induction false} SplitPiecesLackSeparator(s: string, sep: char)
    ensures forall k :: 0 <= k < |Split(s, sep)| ==> sep !in Split(s, sep)[k]
  {
    if s != [] {
      SplitPiecesLackSeparator(s[1..], sep);
    }
  }

  /** `parts.join(sep)`, the inverse of Split. */
  function Join(parts: seq<string>, sep: char): string
    requires |parts| >= 1
  {
    if |parts| == 1 then parts[0] else parts[0] + [sep] + Join(parts[1..], sep)
  }

  /** Splitting loses nothing: joining the pieces back gives the input. */
  lemma {:induction false} JoinSplit(s: string, sep: char)
    ensures Join(Split(s, sep), sep) == s
  {
    if s != [] {
      var rest := Split(s[1..], sep);
      JoinSplit(s[1..], sep);
      if s[0] == sep {
        assert Split(s, sep)[1..] == rest;
      } else {
        var r := Split(s, sep);
        assert r[1..] == rest[1..];
        if |rest| == 1 {
          assert Join(r, sep) == [s[0]] + rest[0];
        } else {
          assert Join(r, sep) == [s[0]] + rest[0] + [sep] + Join(rest[1..], sep);
        }
      }
    }
  }

  /** The first piece of a split is the prefix of `s` before the first
      separator, or all of `s` when it holds none. */
  lemma {:induction false} SplitHead(s: string, sep: char)
    ensures StartsWith(s, Split(s, sep)[0])
    ensures |Split(s, sep)[0]| == |s| || s[|Split(s, sep)[0]|] == sep
  {
    if s != [] && s[0] != sep {
      SplitHead(s[1..], sep);
    }
  }

  /** A string with no separator is its own only piece. */
  lemma {:induction false} SplitWithoutSeparator(s: string, sep: char)
    requires sep !in s
    ensures Split(s, sep) == [s]
  {
    if s != [] {
      SplitWithoutSeparator(s[1..], sep);
      assert [s[0]] + s[1..] == s;
    }
  }

  // ---------------------------------------------------------------------------
  // Array.prototype.filter(Boolean) on strings

  /** `xs.filter(Boolean)`: the non-empty strings, in their order. */
  function NonEmpty(xs: seq<string>): (r: seq<string>)
    ensures |r| <= |xs|
    ensures forall k :: 0 <= k < |r| ==> r[k] != []
  {
    if xs == [] then [] else (if xs[0] == [] then [] else [xs[0]]) + NonEmpty(xs[1..])
  }

  /** The filter keeps exactly the non-empty members. */
  lemma {:induction false} NonEmptyMembers(xs: seq<string>)
    ensures forall x :: x in NonEmpty(xs) <==> x != [] && x in xs
  {
    if xs != [] {
      NonEmptyMembers(xs[1..]);
      assert xs == [xs[0]] + xs[1..];
    }
  }

  lemma {:induction false} NonEmptyNone(xs: seq<string>)
    ensures NonEmpty(xs) == [] <==> forall j :: 0 <= j < |xs| ==> xs[j] == []
  {
    if xs != [] {
      NonEmptyNone(xs[1..]);
      assert forall j :: 1 <= j < |xs| ==> xs[j] == xs[1..][j - 1];
    }
  }

  /** The first kept string is the first non-empty one. */
  lemma {:induction false} NonEmptyFirst(xs: seq<string>, k: nat)
    requires k < |xs| && xs[k] != []
    requires forall j :: 0 <= j < k ==> xs[j] == []
    ensures NonEmpty(xs) != [] && NonEmpty(xs)[0] == xs[k]
  {
    if k > 0 {
      NonEmptyFirst(xs[1..], k - 1);
    }
  }

  /** A non-empty string keeps its rank: it follows the strings kept from
      before it. */
  lemma {:induction false} NonEmptyAt(xs: seq<string>, j: nat)
    requires j < |xs| && xs[j] != []
    ensures |NonEmpty(xs[..j])| < |NonEmpty(xs)|
    ensures NonEmpty(xs)[|NonEmpty(xs[..j])|] == xs[j]
  {
    if j == 0 {
      assert xs[..j] == [];
    } else {
      NonEmptyAt(xs[1..], j - 1);
      assert xs[..j][1..] == xs[1..][..j - 1];
      assert xs[..j] != [] && xs[..j][0] == xs[0];
    }
  }

  /** The last kept string is the last non-empty one. */
  lemma {:induction false} NonEmptyLast(xs: seq<string>, k: nat)
    requires k < |xs| && xs[k] != []
    requires forall j :: k < j < |xs| ==> xs[j] == []
    ensures NonEmpty(xs) != [] && NonEmpty(xs)[|NonEmpty(xs)| - 1] == xs[k]
  {
    var rest := xs[1..];
    assert forall j :: 0 <= j < |rest| ==> rest[j] == xs[j + 1];
    if k == 0 {
      NonEmptyNone(rest);
      assert NonEmpty(xs) == [xs[0]];
    } else {
      NonEmptyLast(rest, k - 1);
    }
  }

  // ---------------------------------------------------------------------------
  // Decimal rendering of a natural number, as `${n}` prints it for n below
  // 10^21 (larger numbers print in exponent form; the handler prints
  // positions below 100)

  predicate IsDigit(c: char)
  {
    '0' <= c <= '9'
  }

  function DigitChar(d: nat): (c: char)
    requires d < 10
    ensures IsDigit(c)
  {
    ('0' as int + d) as char
  }

  /** `${n}` for n below 10^21: decimal digits, most significant first,
      without leading zeros. */
  function Decimal(n: nat): (r: string)
    ensures |r| >= 1
    ensures forall k :: 0 <= k < |r| ==> IsDigit(r[k])
    ensures r[0] != '0' || n == 0
  {
    if n < 10 then [DigitChar(n)] else Decimal(n / 10) + [DigitChar(n % 10)]
  }

  /** The number a string of decimal digits denotes. */
  function DigitsValue(s: string): nat
    requires forall k :: 0 <= k < |s| ==> IsDigit(s[k])
  {
    if s == [] then 0
    else
      var last := s[|s| - 1];
      assert IsDigit(last);
      10 * DigitsValue(s[..|s| - 1]) + (last as int - '0' as int)
  }

  /** Reading back the digits of `Decimal(n)` gives `n`. */
  lemma {:induction false} DecimalRoundTrip(n: nat)
    ensures DigitsValue(Decimal(n)) == n
  {
    if n >= 10 {
      DecimalRoundTrip(n / 10);
      var s := Decimal(n);
      assert s[..|s| - 1] == Decimal(n / 10);
    }
  }

  /** Distinct numbers print differently. */
  lemma DecimalInjective(m: nat, n: nat)
    requires Decimal(m) == Decimal(n)
    ensures m == n
  {
    DecimalRoundTrip(m);
    DecimalRoundTrip(n);
  }
}
