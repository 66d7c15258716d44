/** URL handling of the search client: percent-decoding as `urllib.parse.unquote` does it, the
    network location as `urllib.parse.urlsplit` finds it, the link cleaner that unwraps the search
    engine's redirect links and refuses unusable hosts, and the domain allow-list. */
module Urls {
  import opened Wrappers
  import Text
  import Regex
  import Utf8

  // ---------------------------------------------------------------------------------------------
  // Percent-decoding.

  predicate IsAscii(c: char) {
    c as int < 0x80
  }

  /** Length of the longest prefix of `s` whose characters are all ASCII (`ascii`) or all not. */
  function Run(s: string, ascii: bool): (k: nat)
    ensures k <= |s|
    ensures forall j :: 0 <= j < k ==> IsAscii(s[j]) == ascii
    ensures k == |s| || IsAscii(s[k]) != ascii
  {
    if s == "" || IsAscii(s[0]) != ascii then 0 else 1 + Run(s[1..], ascii)
  }

  predicate IsHexDigit(c: char) {
    '0' <= c <= '9' || 'a' <= c <= 'f' || 'A' <= c <= 'F'
  }

  function HexValue(c: char): (v: nat)
    requires IsHexDigit(c)
    ensures v < 16
  {
    if '0' <= c <= '9' then c as int - '0' as int
    else if 'a' <= c <= 'f' then c as int - 'a' as int + 10
    else c as int - 'A' as int + 10
  }

  /** `unquote_to_bytes` on a run of ASCII characters: `%` and two hex digits (either case) give
      one byte, anything else (a lone or malformed `%` included) stands for itself. Splitting on `%`
      and decoding the first two characters of each piece, as the library does, reads the same,
      because a hex digit is never a `%`. */
  function PercentBytes(s: string): seq<Utf8.Byte>
    requires forall j :: 0 <= j < |s| ==> IsAscii(s[j])
  {
    if s == "" then []
    else if s[0] == '%' && |s| >= 3 && IsHexDigit(s[1]) && IsHexDigit(s[2]) then
      [HexValue(s[1]) * 16 + HexValue(s[2])] + PercentBytes(s[3..])
    else
      assert IsAscii(s[0]);
      var c: Utf8.Byte := s[0] as int;
      [c] + PercentBytes(s[1..])
  }

  /** The library's `_generate_unquoted_parts`: runs of non-ASCII characters are kept, and each run of
      ASCII characters is percent-decoded to bytes and read as UTF-8 with `errors='replace'`. */
  function UnquoteRuns(s: string): string
    decreases |s|
  {
    if s == "" then ""
    else
      var ascii := IsAscii(s[0]);
      var k := Run(s, ascii);
      (if ascii then Utf8.Decode(PercentBytes(s[..k])) else s[..k]) + UnquoteRuns(s[k..])
  }

  /** `urllib.parse.unquote(s)`: a string without `%` is returned as it is. */
  function Unquote(s: string): string {
    if '%' !in s then s else UnquoteRuns(s)
  }

  function HexDigitUpper(v: nat): (c: char)
    requires v < 16
    ensures IsHexDigit(c) && HexValue(c) == v && IsAscii(c)
  {
    if v < 10 then ('0' as int + v) as char else ('A' as int + v - 10) as char
  }

  /** Every byte written as `%XX`. */
  function EscapeBytes(b: seq<Utf8.Byte>): (r: string)
    ensures |r| == 3 * |b|
    ensures forall j :: 0 <= j < |r| ==> IsAscii(r[j]) && r[j] != '&'
  {
    if b == [] then "" else ['%', HexDigitUpper(b[0] / 16), HexDigitUpper(b[0] % 16)] + EscapeBytes(b[1..])
  }

  /** The reference encoder: the UTF-8 bytes of every character, percent-escaped. */
  function PercentEncode(u: string): (r: string)
    ensures forall j :: 0 <= j < |r| ==> IsAscii(r[j]) && r[j] != '&'
  {
    EscapeBytes(Utf8.Encode(u))
  }

  lemma {:induction false} EscapeBytesDecode(b: seq<Utf8.Byte>)
    ensures PercentBytes(EscapeBytes(b)) == b
  {
    if b != [] {
      var r := EscapeBytes(b);
      assert r[3..] == EscapeBytes(b[1..]);
      EscapeBytesDecode(b[1..]);
    }
  }

  lemma EncodeNonEmpty(u: string)
    requires u != ""
    ensures Utf8.Encode(u) != []
  {
  }

  /** Decoding undoes the reference encoder for every string. */
  lemma UnquotePercentEncode(u: string)
    ensures Unquote(PercentEncode(u)) == u
  {
    var r := PercentEncode(u);
    if u == "" {
      assert r == "";
    } else {
      EncodeNonEmpty(u);
      assert r[0] == '%';
      assert Run(r, true) == |r|;
      assert r[..|r|] == r;
      EscapeBytesDecode(Utf8.Encode(u));
      Utf8.DecodeEncode(u);
      assert r[|r|..] == "";
      assert UnquoteRuns(r) == Utf8.Decode(PercentBytes(r[..|r|])) + UnquoteRuns(r[|r|..]);
      assert '%' in r;
    }
  }

  /** Unquoting never touches non-ASCII text and decodes ASCII text without `%` to itself. */
  lemma {:induction false} UnquoteRunsPlain(s: string)
    requires '%' !in s
    ensures UnquoteRuns(s) == s
    decreases |s|
  {
    if s != "" {
      var k := Run(s, IsAscii(s[0]));
      PlainStep(s);
      UnquoteRunsPlain(s[k..]);
      assert s[..k] + s[k..] == s;
    }
  }

  /** The first run of a string without `%` is kept as it is, and no `%` follows it either. */
  lemma PlainStep(s: string)
    requires s != "" && '%' !in s
    ensures var k := Run(s, IsAscii(s[0]));
      UnquoteRuns(s) == s[..k] + UnquoteRuns(s[k..]) && '%' !in s[k..]
  {
    var k := Run(s, IsAscii(s[0]));
    PlainRun(s);
    assert '%' !in s[k..] by {
      forall j | 0 <= j < |s| - k ensures s[k..][j] != '%' {
        assert s[k..][j] == s[k + j];
      }
    }
  }

  /** The first run of a string without `%` decodes to itself. */
  lemma PlainRun(s: string)
    requires s != "" && '%' !in s
    ensures var ascii := IsAscii(s[0]);
      var t := s[..Run(s, ascii)];
      (if ascii then Utf8.Decode(PercentBytes(t)) else t) == t
  {
    var ascii := IsAscii(s[0]);
    var t := s[..Run(s, ascii)];
    if ascii {
      assert forall j :: 0 <= j < |t| ==> IsAscii(t[j]) && t[j] != '%' by {
        forall j | 0 <= j < |t| ensures IsAscii(t[j]) && t[j] != '%' {
          assert t[j] == s[j];
        }
      }
      PercentBytesPlain(t);
      Utf8.DecodeAscii(PercentBytes(t));
      assert Utf8.Decode(PercentBytes(t)) == t;
    }
  }

  lemma {:induction false} PercentBytesPlain(s: string)
    requires forall j :: 0 <= j < |s| ==> IsAscii(s[j]) && s[j] != '%'
    ensures |PercentBytes(s)| == |s|
    ensures forall j :: 0 <= j < |s| ==> PercentBytes(s)[j] == s[j] as int < 0x80
  {
    if s != "" {
      PercentBytesPlain(s[1..]);
    }
  }

  // ---------------------------------------------------------------------------------------------
  // The network location, as `urlsplit` (and so `urlparse`) finds it.

  /** `_WHATWG_C0_CONTROL_OR_SPACE`, stripped from the front of the URL. */
  predicate IsC0OrSpace(c: char) {
    c as int <= 0x20
  }

  function LStripC0(s: string): (r: string)
    ensures r == "" || !IsC0OrSpace(r[0])
    ensures |r| <= |s| && r == s[|s| - |r|..]
  {
    if s != "" && IsC0OrSpace(s[0]) then LStripC0(s[1..]) else s
  }

  /** `_UNSAFE_URL_BYTES_TO_REMOVE`: tab, carriage return and line feed are deleted everywhere. */
  predicate IsUnsafe(c: char) {
    c == '\t' || c == '\r' || c == '\n'
  }

  function RemoveUnsafe(s: string): (r: string)
    ensures forall j :: 0 <= j < |r| ==> !IsUnsafe(r[j])
  {
    if s == "" then "" else (if IsUnsafe(s[0]) then "" else [s[0]]) + RemoveUnsafe(s[1..])
  }

  predicate IsAsciiLetter(c: char) {
    'a' <= c <= 'z' || 'A' <= c <= 'Z'
  }

  /** `scheme_chars`: letters, digits, `+`, `-` and `.`. */
  predicate IsSchemeChar(c: char) {
    IsAsciiLetter(c) || Text.IsDigit(c) || c == '+' || c == '-' || c == '.'
  }

  /** What follows the scheme: the text after the first `:` when everything before it is a scheme
      beginning with a letter, otherwise the whole URL. */
  function AfterScheme(url: string): string {
    match Text.IndexOf(url, ':')
    case None => url
    case Some(i) =>
      if i > 0 && IsAsciiLetter(url[0]) && forall j :: 0 <= j < i ==> IsSchemeChar(url[j]) then url[i + 1..]
      else url
  }

  predicate IsNetlocEnd(c: char) {
    c == '/' || c == '?' || c == '#'
  }

  /** `_splitnetloc`: the text up to the first `/`, `?` or `#`. */
  function UpToDelimiter(t: string): (r: string)
    ensures |r| <= |t| && r == t[..|r|]
    ensures forall j :: 0 <= j < |r| ==> !IsNetlocEnd(r[j])
    ensures |r| == |t| || IsNetlocEnd(t[|r|])
  {
    if t == "" || IsNetlocEnd(t[0]) then "" else [t[0]] + UpToDelimiter(t[1..])
  }

  /** `urlsplit(url).netloc`; `None` where `urlsplit` raises `ValueError` because only one of the
      IPv6 brackets is present. */
  function Netloc(url: string): Option<string> {
    var u := AfterScheme(RemoveUnsafe(LStripC0(url)));
    if |u| >= 2 && u[..2] == "//" then
      var n := UpToDelimiter(u[2..]);
      if ('[' in n) != (']' in n) then None else Some(n)
    else Some("")
  }

  // ---------------------------------------------------------------------------------------------
  // `DuckDuckGoSearch._clean_url`.

  predicate HasWebScheme(s: string) {
    Text.StartsWith(s, "http://") || Text.StartsWith(s, "https://")
  }

  /** Hosts the cleaner refuses: the search engines and the social network, by substring. */
  predicate Blocked(netloc: string) {
    Text.Contains(netloc, "duckduckgo") || Text.Contains(netloc, "yandex")
    || Text.Contains(netloc, "google") || Text.Contains(netloc, "vk")
  }

  /** A link that is kept once unwrapped and stripped. */
  predicate Acceptable(u: string) {
    HasWebScheme(u) && Netloc(u).Some? && Netloc(u).value != "" && !Blocked(Netloc(u).value)
  }

  const WrapperMarker: string := "duckduckgo.com/l/?uddg="

  /** `uddg=([^&]+)`: the group is the last atom. */
  const UddgPattern: Regex.Pattern :=
    Regex.Pattern(Regex.Literal("uddg=") + [NotAmp], false)

  /** A redirect link is replaced by its decoded `uddg` parameter; other links are left as they are. */
  function Unwrap(raw: string): string {
    if !Text.Contains(raw, WrapperMarker) then raw
    else match Regex.Search(UddgPattern, raw)
      case None => raw
      case Some(b) => Unquote(Regex.Span(UddgPattern.atoms, false, raw, b, 5, 6))
  }

  function CleanUrl(raw: string): (r: Option<string>)
    ensures r.Some? ==> Acceptable(r.value) && Text.Trimmed(r.value)
    ensures r.Some? ==> HasWebScheme(r.value) && Netloc(r.value).Some? && Netloc(r.value).value != ""
    ensures r.Some? ==> var n := Netloc(r.value).value;
      !Text.Contains(n, "duckduckgo") && !Text.Contains(n, "yandex") && !Text.Contains(n, "google")
      && !Text.Contains(n, "vk")
    ensures r.None? <==> !Acceptable(Text.Strip(Unwrap(raw)))
  {
    var u := Text.Strip(Unwrap(raw));
    if Acceptable(u) then Some(u) else None
  }

  /** Length of `http://` or `https://` at the front of a web URL. */
  function SchemeLength(u: string): (k: nat)
    requires HasWebScheme(u)
    ensures k <= |u| && k - 3 > 0
    ensures forall j :: 0 <= j < k ==> !IsUnsafe(u[j])
    ensures u[k - 3] == ':' && u[k - 2] == '/' && u[k - 1] == '/'
    ensures forall j :: 0 <= j < k - 3 ==> IsSchemeChar(u[j]) && u[j] != ':'
    ensures IsAsciiLetter(u[0])
  {
    if Text.StartsWith(u, "http://") then
      assert u[..7] == "http://";
      7
    else
      assert u[..8] == "https://";
      8
  }

  /** What follows `scheme://` in a web URL, once tabs and line breaks are deleted. */
  function AfterSlashes(u: string): string
    requires HasWebScheme(u)
  {
    var k := SchemeLength(u);
    RemoveUnsafePrefix(u, k);
    RemoveUnsafe(u)[k..]
  }

  /** The host of a web URL is what follows `//` up to the first `/`, `?` or `#`, once tabs and
      line breaks are deleted. */
  lemma NetlocOfWebUrl(u: string)
    requires HasWebScheme(u)
    ensures var n := UpToDelimiter(AfterSlashes(u));
      Netloc(u) == (if ('[' in n) != (']' in n) then None else Some(n))
  {
    var k := SchemeLength(u);
    assert LStripC0(u) == u;
    RemoveUnsafePrefix(u, k);
    var v := RemoveUnsafe(u);
    AfterSchemeAt(v, k - 3);
    assert v[k - 2] == u[k - 2] == '/' && v[k - 1] == u[k - 1] == '/';
    assert v[k - 2..][..2] == "//";
    assert v[k - 2..][2..] == v[k..];
  }

  /** A scheme ending at the first `:` is cut off with the `:`. */
  lemma AfterSchemeAt(v: string, i: nat)
    requires 0 < i < |v| && v[i] == ':' && IsAsciiLetter(v[0])
    requires forall j :: 0 <= j < i ==> IsSchemeChar(v[j]) && v[j] != ':'
    ensures AfterScheme(v) == v[i + 1..]
  {
    Text.IndexOfAt(v, ':', i);
  }

  /** Deleting tabs and line breaks keeps a prefix that has none. */
  lemma {:induction false} RemoveUnsafePrefix(u: string, k: nat)
    requires k <= |u| && forall j :: 0 <= j < k ==> !IsUnsafe(u[j])
    ensures |RemoveUnsafe(u)| >= k && RemoveUnsafe(u)[..k] == u[..k]
  {
    if k > 0 {
      RemoveUnsafePrefix(u[1..], k - 1);
    }
  }

  /** A cleaned link that is not itself a redirect link is cleaned to itself. */
  lemma CleanUrlIdempotent(raw: string)
    requires CleanUrl(raw).Some? && !Text.Contains(CleanUrl(raw).value, WrapperMarker)
    ensures CleanUrl(CleanUrl(raw).value) == CleanUrl(raw)
  {
    var u := CleanUrl(raw).value;
    assert Unwrap(u) == u;
    Text.StripTrimmed(u);
  }

  const NotAmp: Regex.Atom := Regex.Atom(Regex.NotIn([('&', '&')]), 1, Regex.Unbounded)

  /** Where `uddg=` first occurs at `p`, followed by `n > 0` characters other than `&` and then by
      `&` or the end, the pattern matches there and its group is those `n` characters. */
  lemma UddgSearch(s: string, p: nat, n: nat)
    requires p + 5 + n <= |s| && n > 0
    requires Text.OccursAt(s, "uddg=", p)
    requires forall i :: 0 <= i < p ==> !Text.OccursAt(s, "uddg=", i)
    requires forall j :: p + 5 <= j < p + 5 + n ==> s[j] != '&'
    requires p + 5 + n == |s| || s[p + 5 + n] == '&'
    ensures var m := Regex.Steps(p, 5) + [p + 5, p + 5 + n];
      Regex.Search(UddgPattern, s) == Some(m)
  {
    NotAmpRun(s, p + 5, n);
    assert Regex.GreedyRun(NotAmp, s, p + 5) == n;
    Regex.WordThenAtom("uddg=", NotAmp, s, p);
  }

  /** A link holding the redirect marker, whose first `uddg=` is followed by `n > 0` characters other
      than `&`, unwraps to those characters percent-decoded. */
  lemma UnwrapAt(s: string, p: nat, n: nat)
    requires Text.Contains(s, WrapperMarker)
    requires p + 5 + n <= |s| && n > 0
    requires Text.OccursAt(s, "uddg=", p)
    requires forall i :: 0 <= i < p ==> !Text.OccursAt(s, "uddg=", i)
    requires forall j :: p + 5 <= j < p + 5 + n ==> s[j] != '&'
    requires p + 5 + n == |s| || s[p + 5 + n] == '&'
    ensures Unwrap(s) == Unquote(s[p + 5..p + 5 + n])
  {
    UddgSearch(s, p, n);
    var m := Regex.Steps(p, 5) + [p + 5, p + 5 + n];
    assert m[5] == p + 5 && m[6] == p + 5 + n;
    assert Regex.Span(UddgPattern.atoms, false, s, m, 5, 6) == s[p + 5..p + 5 + n];
  }

  /** The search engine's redirect link to an acceptable URL cleans to that URL: the `uddg`
      parameter is found, taken up to the next `&`, and percent-decoded. */
  lemma CleanUrlUnwraps(u: string, tail: string)
    requires Acceptable(u) && Text.Trimmed(u)
    requires tail == "" || tail[0] == '&'
    ensures CleanUrl("//duckduckgo.com/l/?uddg=" + PercentEncode(u) + tail) == Some(u)
  {
    EncodeNonEmpty(u);
    RedirectUnwraps(PercentEncode(u), tail);
    UnquotePercentEncode(u);
    Text.StripTrimmed(u);
  }

  /** A redirect link unwraps to its decoded `uddg` value, however the query goes on after `&`. */
  lemma RedirectUnwraps(enc: string, tail: string)
    requires enc != "" && forall j :: 0 <= j < |enc| ==> enc[j] != '&'
    requires tail == "" || tail[0] == '&'
    ensures Unwrap("//duckduckgo.com/l/?uddg=" + enc + tail) == Unquote(enc)
  {
    var prefix := "//duckduckgo.com/l/?uddg=";
    var s := prefix + (enc + tail);
    assert prefix + enc + tail == s;
    assert s[..25] == prefix;
    assert s[2..25] == WrapperMarker;
    assert Text.OccursAt(s, WrapperMarker, 2);
    assert s[20..25] == "uddg=";
    NoUddgInRedirectPrefix(enc + tail);
    UnwrapAt(s, 20, |enc|);
    assert s[25..25 + |enc|] == enc;
  }

  /** In a redirect link, the marker holds the first `uddg=`. */
  lemma NoUddgInRedirectPrefix(x: string)
    ensures var s := "//duckduckgo.com/l/?uddg=" + x;
      forall i :: 0 <= i < 20 ==> !Text.OccursAt(s, "uddg=", i)
  {
    var prefix := "//duckduckgo.com/l/?uddg=";
    var s := prefix + x;
    forall i | 0 <= i < 20
      ensures !Text.OccursAt(s, "uddg=", i)
    {
      assert s[i] == prefix[i] && s[i + 1] == prefix[i + 1];
      // One case per position of the literal, so each character is evaluated.
      assert i == 0 || i == 1 || i == 2 || i == 3 || i == 4 || i == 5 || i == 6 || i == 7 || i == 8 || i == 9
        || i == 10 || i == 11 || i == 12 || i == 13 || i == 14 || i == 15 || i == 16 || i == 17 || i == 18 || i == 19;
      assert s[i..i + 5][0] == s[i] && s[i..i + 5][1] == s[i + 1];
    }
  }

  /** The characters of the encoded value are all outside `[&]`, and a tail starting with `&` ends the run. */
  lemma {:induction false} NotAmpRun(s: string, pos: nat, n: nat)
    requires pos + n <= |s|
    requires forall j :: pos <= j < pos + n ==> s[j] != '&'
    requires pos + n == |s| || s[pos + n] == '&'
    ensures Regex.ClassRun(Regex.NotIn([('&', '&')]), s, pos) == n
    decreases n
  {
    if n == 0 {
      if pos < |s| {
        assert [('&', '&')][0].0 <= s[pos] <= [('&', '&')][0].1;
      }
    } else {
      assert !Regex.InRanges(s[pos], [('&', '&')]);
      NotAmpRun(s, pos + 1, n - 1);
    }
  }

  /** Cleaning is not idempotent on a link that itself holds the redirect marker: a redirect to
      `https://a.ru/duckduckgo.com/l/?uddg=https://b.ru/` cleans to that link, and cleaning that
      again yields `https://b.ru/`. */
  lemma CleanUrlNotIdempotent(x: string)
    requires x == "https://a.ru/" + WrapperMarker + "https://b.ru/"
    ensures CleanUrl("//duckduckgo.com/l/?uddg=" + PercentEncode(x)) == Some(x)
    ensures CleanUrl(x) == Some("https://b.ru/")
  {
    NestedRedirect(x);
    NestedClean(x, "https://b.ru/");
  }

  /** The redirect links the search page writes: protocol-relative, the marker right after `//`. */
  predicate IsRedirectLink(raw: string) {
    Text.StartsWith(raw, "//" + WrapperMarker)
  }

  /** The unwrapping the cleaner is evidently meant to do: only a redirect link is replaced by its
      decoded `uddg` parameter, not a link that merely mentions the marker further on. */
  function UnwrapRedirect(raw: string): string {
    if !IsRedirectLink(raw) then raw
    else match Regex.Search(UddgPattern, raw)
      case None => raw
      case Some(b) => Unquote(Regex.Span(UddgPattern.atoms, false, raw, b, 5, 6))
  }

  /** The link cleaner with `UnwrapRedirect` in place of `Unwrap`. */
  function CleanRedirectUrl(raw: string): Option<string> {
    var u := Text.Strip(UnwrapRedirect(raw));
    if Acceptable(u) then Some(u) else None
  }

  /** The corrected cleaner agrees with the code on redirect links and on links without the marker. */
  lemma CleanRedirectAgrees(raw: string)
    requires IsRedirectLink(raw) || !Text.Contains(raw, WrapperMarker)
    ensures CleanRedirectUrl(raw) == CleanUrl(raw)
  {
    if IsRedirectLink(raw) {
      assert Text.OccursAt(raw, WrapperMarker, 2) by {
        assert raw[2..2 + |WrapperMarker|] == raw[..2 + |WrapperMarker|][2..];
      }
    }
  }

  /** The corrected cleaner is idempotent on every link: a cleaned link has a web scheme, so it is
      never a redirect link and is left as it is. */
  lemma CleanRedirectIdempotent(raw: string)
    requires CleanRedirectUrl(raw).Some?
    ensures CleanRedirectUrl(CleanRedirectUrl(raw).value) == CleanRedirectUrl(raw)
  {
    var u := CleanRedirectUrl(raw).value;
    assert u[0] == 'h' by {
      if Text.StartsWith(u, "http://") {
        assert u[..7][0] == u[0];
      } else {
        assert u[..8][0] == u[0];
      }
    }
    NotRedirect(u);
    Text.StripTrimmed(u);
  }

  /** The link of the non-idempotence example is kept as it is by the corrected cleaner. */
  lemma NestedKeptByRedirectCleaner(x: string)
    requires x == "https://a.ru/" + WrapperMarker + "https://b.ru/"
    ensures CleanRedirectUrl(x) == Some(x)
  {
    ExampleAcceptable(x);
    NotRedirect(x);
    Text.StripTrimmed(x);
  }

  lemma NotRedirect(u: string)
    requires u != "" && u[0] == 'h'
    ensures !IsRedirectLink(u)
  {
    if |u| >= 2 + |WrapperMarker| {
      assert u[..2 + |WrapperMarker|][0] == u[0];
    }
  }

  lemma NestedRedirect(x: string)
    requires x == "https://a.ru/" + WrapperMarker + "https://b.ru/"
    ensures CleanUrl("//duckduckgo.com/l/?uddg=" + PercentEncode(x)) == Some(x)
  {
    ExampleAcceptable(x);
    CleanUrlUnwraps(x, "");
    assert "//duckduckgo.com/l/?uddg=" + PercentEncode(x) + "" == "//duckduckgo.com/l/?uddg=" + PercentEncode(x);
  }

  lemma NestedClean(x: string, y: string)
    requires y == "https://b.ru/" && x == "https://a.ru/" + WrapperMarker + y
    ensures CleanUrl(x) == Some(y)
  {
    ExampleTarget(y);
    assert forall j :: 0 <= j < |y| ==> y[j] != '&';
    NestedUnwraps(y);
  }

  lemma ExampleAcceptable(x: string)
    requires x == "https://a.ru/" + WrapperMarker + "https://b.ru/"
    ensures Acceptable(x) && Text.Trimmed(x)
  {
    NotBlockedShort("a.ru");
    WebHost(x, "a.ru");
  }

  /** A link that carries the marker after its own host unwraps to what follows `uddg=`. */
  lemma NestedUnwraps(y: string)
    requires y != "" && forall j :: 0 <= j < |y| ==> y[j] != '&'
    ensures Unwrap("https://a.ru/" + WrapperMarker + y) == Unquote(y)
  {
    var x := "https://a.ru/duckduckgo.com/l/?" + ("uddg=" + y);
    NestedShape(y);
    NoUddgInLinkPrefix("uddg=" + y);
    UnwrapAt(x, 31, |y|);
  }

  lemma NestedShape(y: string)
    ensures var x := "https://a.ru/duckduckgo.com/l/?" + ("uddg=" + y);
      && "https://a.ru/" + WrapperMarker + y == x
      && |x| == 36 + |y| && Text.Contains(x, WrapperMarker) && Text.OccursAt(x, "uddg=", 31)
      && x[36..36 + |y|] == y && forall j :: 36 <= j < |x| ==> x[j] == y[j - 36]
  {
    var x := "https://a.ru/duckduckgo.com/l/?" + ("uddg=" + y);
    assert "https://a.ru/" + WrapperMarker + y == x;
    assert x[13..36] == WrapperMarker;
    assert Text.OccursAt(x, WrapperMarker, 13);
    assert x[31..36] == "uddg=";
    assert x[36..36 + |y|] == y;
  }

  lemma ExampleTarget(y: string)
    requires y == "https://b.ru/"
    ensures Unquote(y) == y && Acceptable(y) && Text.Strip(y) == y
  {
    assert '%' !in y;
    NotBlockedShort("b.ru");
    WebHost(y, "b.ru");
    Text.StripTrimmed(y);
  }

  /** In the link of the example above, the marker holds the first `uddg=`. */
  lemma NoUddgInLinkPrefix(z: string)
    ensures var s := "https://a.ru/duckduckgo.com/l/?" + z;
      forall i :: 0 <= i < 31 ==> !Text.OccursAt(s, "uddg=", i)
  {
    var prefix := "https://a.ru/duckduckgo.com/l/?";
    var s := prefix + z;
    forall i | 0 <= i < 31
      ensures !Text.OccursAt(s, "uddg=", i)
    {
      assert s[i] == prefix[i];
      // One case per position of the literal, so each character is evaluated.
      assert i == 0 || i == 1 || i == 2 || i == 3 || i == 4 || i == 5 || i == 6 || i == 7 || i == 8 || i == 9
        || i == 10 || i == 11 || i == 12 || i == 13 || i == 14 || i == 15 || i == 16 || i == 17 || i == 18 || i == 19
        || i == 20 || i == 21 || i == 22 || i == 23 || i == 24 || i == 25 || i == 26 || i == 27 || i == 28 || i == 29
        || i == 30;
      assert i < 30 ==> s[i + 1] == prefix[i + 1];
      assert i + 5 <= |s| ==> s[i..i + 5][0] == s[i] && s[i..i + 5][1] == s[i + 1];
    }
  }

  /** `_splitnetloc` stops at the first delimiter. */
  lemma {:induction false} UpToDelimiterAt(t: string, k: nat)
    requires k <= |t| && (k == |t| || IsNetlocEnd(t[k]))
    requires forall j :: 0 <= j < k ==> !IsNetlocEnd(t[j])
    ensures UpToDelimiter(t) == t[..k]
  {
    if k > 0 {
      UpToDelimiterAt(t[1..], k - 1);
      assert t[..k] == [t[0]] + t[1..][..k - 1];
    }
  }

  /** A four-character host without `v` is not blocked: the other names are longer. */
  lemma NotBlockedShort(h: string)
    requires |h| == 4 && 'v' !in h
    ensures !Blocked(h)
  {
    forall i | 0 <= i <= 2
      ensures !Text.OccursAt(h, "vk", i)
    {
      assert h[i..i + 2][0] == h[i];
    }
  }

  /** `https://` + `h` + `/` + anything is acceptable with host `h`, for any non-empty host `h`
      that is not blocked and holds no delimiter, bracket, tab or line break. */
  lemma WebHost(u: string, h: string)
    requires h != "" && !Blocked(h)
    requires forall j :: 0 <= j < |h| ==> !IsNetlocEnd(h[j]) && !IsUnsafe(h[j]) && h[j] != '[' && h[j] != ']'
    requires Text.StartsWith(u, "https://" + h + "/")
    ensures Acceptable(u) && Netloc(u) == Some(h)
  {
    var n := |h| + 9;
    var p := "https://" + h + "/";
    assert u[..n] == p;
    assert u[..8] == p[..8] == "https://";
    assert u[4] == 's';
    assert SchemeLength(u) == 8;
    forall j | 8 <= j < n
      ensures !IsUnsafe(u[j])
    {
      assert u[j] == p[j];
      assert j < n - 1 ==> p[j] == h[j - 8];
    }
    RemoveUnsafePrefix(u, n);
    var v := RemoveUnsafe(u);
    var t := v[8..];
    assert AfterSlashes(u) == t;
    assert t[..|h| + 1] == p[8..n] == h + "/";
    UpToDelimiterAt(t, |h|);
    assert t[..|h|] == h;
    NetlocOfWebUrl(u);
    assert '[' !in h && ']' !in h;
  }

  // ---------------------------------------------------------------------------------------------
  // `DuckDuckGoSearch._is_ru_domain`.

  const AllowedSuffixes: seq<string> := [".ru", ".su", ".рф", ".moscow", ".tech", ".com", ".org", ".net"]

  /** The host ends with the suffix `t`, or contains `"." + t`. */
  predicate AllowedBy(d: string, t: string) {
    Text.EndsWith(d, t) || Text.Contains(d, "." + t)
  }

  predicate AllowedHost(d: string) {
    exists k :: 0 <= k < |AllowedSuffixes| && AllowedBy(d, AllowedSuffixes[k])
  }

  /** The lower-cased host passes one of the suffix tests; a URL `urlsplit` rejects is not allowed. */
  predicate IsRuDomain(url: string) {
    Netloc(url).Some? && AllowedHost(Text.Lower(Netloc(url).value))
  }

  /** Each allowed suffix starts with a dot, so the containment test only fires on a host holding
      `..`; for any other host the test is the suffix test alone. */
  lemma AllowedBySuffix(d: string)
    requires !Text.Contains(d, "..")
    ensures AllowedHost(d) <==> exists k :: 0 <= k < |AllowedSuffixes| && Text.EndsWith(d, AllowedSuffixes[k])
  {
    forall k | 0 <= k < |AllowedSuffixes|
      ensures AllowedBy(d, AllowedSuffixes[k]) <==> Text.EndsWith(d, AllowedSuffixes[k])
    {
      var t := "." + AllowedSuffixes[k];
      if Text.Contains(d, t) {
        assert t[..2] == "..";
        Text.ContainsPrefix(d, t, 2);
      }
    }
  }
}
