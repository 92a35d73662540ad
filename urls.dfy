/** URL handling in main.py: finding links in a chat message (`extract_urls`)
    and deciding whether a link points at Twitter/X (`is_twitter_url`), with
    the part of Python's `urllib.parse.urlsplit` that yields the netloc. */
module Urls {
  import opened Wrappers
  import opened Text

  // ---------------------------------------------------------------------
  // Netloc extraction (urllib.parse.urlsplit, Python 3.12)
  // ---------------------------------------------------------------------

  /** The one way `urlsplit` fails on a netloc: an unmatched bracket ("Invalid IPv6 URL"). */
  datatype UrlError = InvalidIPv6

  /** Leading C0 control characters and spaces are dropped before parsing. */
  function LStripControl(s: string): (r: string)
    ensures r == [] || r[0] > ' '
  {
    if s != [] && s[0] <= ' ' then LStripControl(s[1..]) else s
  }

  predicate IsUnsafe(c: char) {
    c == '\t' || c == '\r' || c == '\n'
  }

  /** Tabs, carriage returns and line feeds are removed anywhere in the URL. */
  function RemoveUnsafe(s: string): (r: string)
    ensures forall i :: 0 <= i < |r| ==> !IsUnsafe(r[i])
  {
    if s == [] then []
    else (if IsUnsafe(s[0]) then [] else [s[0]]) + RemoveUnsafe(s[1..])
  }

  predicate IsAsciiLetter(c: char) {
    ('a' <= c <= 'z') || ('A' <= c <= 'Z')
  }

  /** `urllib.parse.scheme_chars` */
  predicate IsSchemeChar(c: char) {
    IsAsciiLetter(c) || ('0' <= c <= '9') || c == '+' || c == '-' || c == '.'
  }

  /** Position of the first occurrence of `c`. */
  function IndexOf(s: string, c: char): (r: Option<nat>)
    ensures r.Some? ==> r.value < |s| && s[r.value] == c && c !in s[..r.value]
    ensures r.None? ==> c !in s
  {
    if s == [] then None
    else if s[0] == c then Some(0)
    else match IndexOf(s[1..], c)
      case None => None
      case Some(i) => assert s[..i + 1] == [s[0]] + s[1..][..i]; Some(i + 1)
  }

  /** A scheme: an ASCII letter followed by scheme characters. */
  predicate IsScheme(s: string) {
    |s| > 0 && IsAsciiLetter(s[0]) && forall k :: 0 <= k < |s| ==> IsSchemeChar(s[k])
  }

  /** What follows the scheme and its colon, or the whole string when it has no scheme. */
  function AfterScheme(url: string): string {
    match IndexOf(url, ':')
    case Some(i) => if IsScheme(url[..i]) then url[i + 1..] else url
    case None => url
  }

  /** The text up to the first `/`, `?` or `#` (`_splitnetloc`). */
  function TakeHost(s: string): (r: string)
    ensures r <= s
    ensures forall k :: 0 <= k < |r| ==> r[k] != '/' && r[k] != '?' && r[k] != '#'
  {
    if s == [] || s[0] == '/' || s[0] == '?' || s[0] == '#' then []
    else [s[0]] + TakeHost(s[1..])
  }

  /** The clean-up `urlsplit` does before parsing. */
  function Sanitize(url: string): string {
    RemoveUnsafe(LStripControl(url))
  }

  /** The authority after a leading `//`, or empty when there is none;
      an unmatched bracket in it is rejected. */
  function AuthorityOf(rest: string): Result<string, UrlError> {
    if |rest| >= 2 && rest[..2] == "//" then
      var n := TakeHost(rest[2..]);
      if ('[' in n) != (']' in n) then Err(InvalidIPv6) else Ok(n)
    else Ok("")
  }

  /** `urlsplit(url).netloc` */
  function Netloc(url: string): Result<string, UrlError> {
    AuthorityOf(AfterScheme(Sanitize(url)))
  }

  // ---------------------------------------------------------------------
  // is_twitter_url
  // ---------------------------------------------------------------------

  const TwitterHosts: set<string> := {"twitter.com", "x.com", "mobile.twitter.com", "mobile.x.com"}

  /** The netloc as it is compared: lowered, with one leading `www.` removed. */
  function HostKey(netloc: string): string {
    RemovePrefix(Lower(netloc), "www.")
  }

  /** `is_twitter_url(url)`; a URL that `urlparse` rejects is not a Twitter URL. */
  function IsTwitterUrl(url: string): bool {
    match Netloc(url)
    case Err(_) => false
    case Ok(n) => HostKey(n) in TwitterHosts
  }

  lemma LStripControlKeeps(s: string)
    requires s != [] && s[0] > ' '
    ensures LStripControl(s) == s
  {
  }

  lemma {:induction false} RemoveUnsafeKeeps(s: string)
    requires forall i :: 0 <= i < |s| ==> !IsUnsafe(s[i])
    ensures RemoveUnsafe(s) == s
  {
    if s != [] {
      RemoveUnsafeKeeps(s[1..]);
      assert [s[0]] + s[1..] == s;
    }
  }

  lemma {:induction false} IndexOfAt(s: string, c: char, i: nat)
    requires i < |s| && s[i] == c && c !in s[..i]
    ensures IndexOf(s, c) == Some(i)
  {
    if i > 0 {
      assert s[0] in s[..i];
      assert s[..i] == [s[0]] + s[1..][..i - 1];
      IndexOfAt(s[1..], c, i - 1);
    }
  }

  /** A character that can stand in a host name: not a delimiter, not a bracket, not removed. */
  predicate IsHostChar(c: char) {
    c != '/' && c != '?' && c != '#' && c != '[' && c != ']' && !IsUnsafe(c)
  }

  predicate IsDelimiterStart(tail: string) {
    tail == [] || tail[0] == '/' || tail[0] == '?' || tail[0] == '#'
  }

  lemma {:induction false} TakeHostStops(h: string, tail: string)
    requires forall k :: 0 <= k < |h| ==> IsHostChar(h[k])
    requires IsDelimiterStart(tail)
    ensures TakeHost(h + tail) == h
  {
    if h != [] {
      assert (h + tail)[1..] == h[1..] + tail;
      TakeHostStops(h[1..], tail);
      assert [h[0]] + h[1..] == h;
    } else {
      assert h + tail == tail;
    }
  }

  lemma SchemeHasNoColon(scheme: string)
    requires IsScheme(scheme)
    ensures ':' !in scheme
  {
    forall k | 0 <= k < |scheme| ensures scheme[k] != ':' {
      assert IsSchemeChar(scheme[k]);
    }
  }

  /** A URL that starts with a printable character and holds no tab or line
      break is left as it is by the clean-up `urlsplit` does first. */
  lemma SanitizeKeeps(url: string)
    requires url != [] && url[0] > ' '
    requires forall i :: 0 <= i < |url| ==> !IsUnsafe(url[i])
    ensures Sanitize(url) == url
  {
    LStripControlKeeps(url);
    RemoveUnsafeKeeps(url);
  }

  /** A valid scheme and its colon come off the front. */
  lemma AfterSchemeOf(scheme: string, rest: string)
    requires IsScheme(scheme)
    ensures AfterScheme(scheme + [':'] + rest) == rest
  {
    var url := scheme + [':'] + rest;
    assert url[..|scheme|] == scheme;
    SchemeHasNoColon(scheme);
    IndexOfAt(url, ':', |scheme|);
  }

  lemma AuthorityOfHost(host: string, tail: string)
    requires forall k :: 0 <= k < |host| ==> IsHostChar(host[k])
    requires IsDelimiterStart(tail)
    ensures AuthorityOf("//" + host + tail) == Ok(host)
  {
    var rest := "//" + host + tail;
    assert rest[..2] == "//";
    assert rest[2..] == host + tail;
    TakeHostStops(host, tail);
    assert '[' !in host && ']' !in host;
  }

  lemma NoUnsafeInUrl(scheme: string, host: string, tail: string)
    requires IsScheme(scheme)
    requires forall k :: 0 <= k < |host| ==> IsHostChar(host[k])
    requires forall k :: 0 <= k < |tail| ==> !IsUnsafe(tail[k])
    ensures forall i :: 0 <= i < |scheme + "://" + host + tail| ==> !IsUnsafe((scheme + "://" + host + tail)[i])
  {
    var url := scheme + "://" + host + tail;
    forall i | 0 <= i < |url| ensures !IsUnsafe(url[i]) {
      if i < |scheme| {
        assert url[i] == scheme[i];
      } else if i < |scheme| + 3 {
      } else if i < |scheme| + 3 + |host| {
        assert url[i] == host[i - |scheme| - 3];
      } else {
        assert url[i] == tail[i - |scheme| - 3 - |host|];
      }
    }
  }

  /** A URL written `scheme://host` followed by a path, query, fragment or
      nothing has `host` as its netloc. */
  lemma NetlocOfUrl(scheme: string, host: string, tail: string)
    requires IsScheme(scheme)
    requires forall k :: 0 <= k < |host| ==> IsHostChar(host[k])
    requires IsDelimiterStart(tail)
    requires forall k :: 0 <= k < |tail| ==> !IsUnsafe(tail[k])
    ensures Netloc(scheme + "://" + host + tail) == Ok(host)
  {
    var url := scheme + "://" + host + tail;
    var rest := "//" + host + tail;
    assert url == scheme + [':'] + rest;
    assert url[0] == scheme[0];
    NoUnsafeInUrl(scheme, host, tail);
    SanitizeKeeps(url);
    AfterSchemeOf(scheme, rest);
    AuthorityOfHost(host, tail);
  }

  /** Such a URL is a Twitter URL exactly when its host, lowered and without
      one leading `www.`, is one of the four Twitter/X hosts. */
  lemma TwitterUrlCharacterization(scheme: string, host: string, tail: string)
    requires IsScheme(scheme)
    requires forall k :: 0 <= k < |host| ==> IsHostChar(host[k])
    requires IsDelimiterStart(tail)
    requires forall k :: 0 <= k < |tail| ==> !IsUnsafe(tail[k])
    ensures IsTwitterUrl(scheme + "://" + host + tail) <==> HostKey(host) in TwitterHosts
  {
    NetlocOfUrl(scheme, host, tail);
  }

  /** A host spelled with lower-case letters, digits, dots and dashes. */
  predicate IsPlainHost(h: string) {
    forall k :: 0 <= k < |h| ==> ('a' <= h[k] <= 'z') || ('0' <= h[k] <= '9') || h[k] == '.' || h[k] == '-'
  }

  lemma {:induction false} LowerPlain(h: string)
    requires IsPlainHost(h)
    ensures Lower(h) == h
  {
    if h != [] {
      LowerPlain(h[1..]);
      assert [h[0]] + h[1..] == h;
    }
  }

  lemma PlainConcat(a: string, b: string)
    requires IsPlainHost(a) && IsPlainHost(b)
    ensures IsPlainHost(a + b)
  {
    forall k | 0 <= k < |a + b|
      ensures ('a' <= (a + b)[k] <= 'z') || ('0' <= (a + b)[k] <= '9') || (a + b)[k] == '.' || (a + b)[k] == '-'
    {
      if k < |a| { assert (a + b)[k] == a[k]; } else { assert (a + b)[k] == b[k - |a|]; }
    }
  }

  lemma PlainIsHostText(h: string)
    requires IsPlainHost(h)
    ensures forall k :: 0 <= k < |h| ==> IsHostChar(h[k])
  {
  }

  lemma PrefixHead(p: string, s: string)
    ensures p <= s && |p| > 0 ==> s[0] == p[0]
  {
  }

  lemma TwitterHostsPlain(h: string)
    requires h in TwitterHosts
    ensures IsPlainHost(h) && !("www." <= h)
  {
    PrefixHead("www.", h);
  }

  /** Every Twitter/X host is recognised behind any scheme. */
  lemma TwitterHostRecognised(scheme: string, host: string, tail: string)
    requires IsScheme(scheme)
    requires host in TwitterHosts
    requires IsDelimiterStart(tail)
    requires forall k :: 0 <= k < |tail| ==> !IsUnsafe(tail[k])
    ensures IsTwitterUrl(scheme + "://" + host + tail)
  {
    TwitterHostsPlain(host);
    LowerPlain(host);
    assert HostKey(host) == host;
    PlainIsHostText(host);
    TwitterUrlCharacterization(scheme, host, tail);
  }

  /** A plain host behind `www.` is compared without the `www.`. */
  lemma WwwHostKey(h: string)
    requires IsPlainHost(h)
    ensures HostKey("www." + h) == h
    ensures forall k :: 0 <= k < |"www." + h| ==> IsHostChar(("www." + h)[k])
  {
    PlainConcat("www.", h);
    LowerPlain("www." + h);
    PlainIsHostText("www." + h);
  }

  /** Every Twitter/X host is recognised with a leading `www.` too. */
  lemma TwitterWwwHostRecognised(scheme: string, host: string, tail: string)
    requires IsScheme(scheme)
    requires host in TwitterHosts
    requires IsDelimiterStart(tail)
    requires forall k :: 0 <= k < |tail| ==> !IsUnsafe(tail[k])
    ensures IsTwitterUrl(scheme + "://" + ("www." + host) + tail)
  {
    TwitterHostsPlain(host);
    WwwHostKey(host);
    TwitterUrlCharacterization(scheme, "www." + host, tail);
  }

  /** The positive cases of tests/test_api.py: each Twitter/X host, bare and with `www.`. */
  lemma TwitterUrlExamples()
    ensures forall h :: h in TwitterHosts ==>
      IsTwitterUrl("https" + "://" + h + "/user/status/123")
      && IsTwitterUrl("https" + "://" + ("www." + h) + "/user/status/123")
  {
    forall h | h in TwitterHosts
      ensures IsTwitterUrl("https" + "://" + h + "/user/status/123")
      ensures IsTwitterUrl("https" + "://" + ("www." + h) + "/user/status/123")
    {
      TwitterHostRecognised("https", h, "/user/status/123");
      TwitterWwwHostRecognised("https", h, "/user/status/123");
    }
  }

  /** A plain host outside the set is not a Twitter URL. */
  lemma OtherHostRejected(scheme: string, host: string, tail: string)
    requires IsScheme(scheme) && IsPlainHost(host) && host != [] && host[0] != 'w'
    requires host !in TwitterHosts
    requires IsDelimiterStart(tail)
    requires forall k :: 0 <= k < |tail| ==> !IsUnsafe(tail[k])
    ensures !IsTwitterUrl(scheme + "://" + host + tail)
  {
    LowerPlain(host);
    PrefixHead("www.", host);
    PlainIsHostText(host);
    TwitterUrlCharacterization(scheme, host, tail);
  }

  const OtherVideoHosts: set<string> := {"youtube.com", "tiktok.com", "instagram.com"}

  /** The negative cases of tests/test_api.py: other video sites are not Twitter URLs. */
  lemma NonTwitterExamples(tail: string)
    requires IsDelimiterStart(tail)
    requires forall k :: 0 <= k < |tail| ==> !IsUnsafe(tail[k])
    ensures forall h :: h in OtherVideoHosts ==> !IsTwitterUrl("https" + "://" + h + tail)
  {
    forall h | h in OtherVideoHosts ensures !IsTwitterUrl("https" + "://" + h + tail) {
      assert IsPlainHost(h) && h[0] != 'w' && h !in TwitterHosts;
      OtherHostRejected("https", h, tail);
    }
  }

  /** Lowering and removing `www.` keep every character that is not a letter or a dot. */
  lemma HostKeyKeeps(netloc: string, c: char)
    requires c in netloc && !('A' <= c <= 'Z') && !('a' <= c <= 'z') && c != '.'
    ensures c in HostKey(netloc)
  {
    var k :| 0 <= k < |netloc| && netloc[k] == c;
    var low := Lower(netloc);
    assert low[k] == c;
    if "www." <= low {
      assert low[..4] == "www.";
      assert k >= 4 by {
        assert forall j :: 0 <= j < 4 ==> low[j] != c;
      }
      assert low == "www." + HostKey(netloc);
      assert HostKey(netloc)[k - 4] == c;
    }
  }

  /** A netloc that carries a port (`:`), user information (`@`) or a bracketed
      address never names a Twitter host, and neither does a URL `urlparse`
      rejects. */
  lemma PortOrUserinfoNeverMatches(url: string)
    requires Netloc(url).Err? || ':' in Netloc(url).value || '@' in Netloc(url).value
      || '[' in Netloc(url).value
    ensures !IsTwitterUrl(url)
  {
    if Netloc(url).Ok? {
      var n := Netloc(url).value;
      var c := if ':' in n then ':' else if '@' in n then '@' else '[';
      HostKeyKeeps(n, c);
      var key := HostKey(n);
      if key in TwitterHosts {
        TwitterHostsPlain(key);
        var k :| 0 <= k < |key| && key[k] == c;
        assert false;
      }
    }
  }

  /** Only one leading `www.` is removed: `www.www.x.com` is not a Twitter host. */
  lemma OneWwwOnly(scheme: string, tail: string)
    requires IsScheme(scheme) && IsDelimiterStart(tail)
    requires forall k :: 0 <= k < |tail| ==> !IsUnsafe(tail[k])
    ensures !IsTwitterUrl(scheme + "://" + ("www." + "www.x.com") + tail)
  {
    assert IsPlainHost("www.x.com");
    WwwHostKey("www.x.com");
    TwitterUrlCharacterization(scheme, "www." + "www.x.com", tail);
  }

  // ---------------------------------------------------------------------
  // extract_urls: URL_RE.findall(text or "") with URL_RE = https?://\S+
  // ---------------------------------------------------------------------

  /** A whole match of `https?://\S+`. */
  predicate IsUrlToken(u: string) {
    && (("https://" <= u && |u| > 8) || ("http://" <= u && |u| > 7))
    && forall i :: 0 <= i < |u| ==> !IsSpace(u[i])
  }

  /** Length of the longest non-whitespace prefix (`\S+` is greedy). */
  function NonSpaceRun(s: string): (n: nat)
    ensures n <= |s|
    ensures forall i :: 0 <= i < n ==> !IsSpace(s[i])
    ensures n < |s| ==> IsSpace(s[n])
  {
    if s == [] || IsSpace(s[0]) then 0 else 1 + NonSpaceRun(s[1..])
  }

  /** Length of the match of `https?://\S+` at the start of `s`, or 0 when
      there is none; the optional `s` is tried first, as the regex engine does. */
  function MatchLength(s: string): (n: nat)
    ensures n <= |s|
    ensures n > 0 ==> IsUrlToken(s[..n])
    ensures n > 0 ==> n == |s| || IsSpace(s[n])
  {
    if "https://" <= s && NonSpaceRun(s[8..]) > 0 then 8 + NonSpaceRun(s[8..])
    else if "http://" <= s && NonSpaceRun(s[7..]) > 0 then 7 + NonSpaceRun(s[7..])
    else 0
  }

  /** `findall`: scan left to right, take each match whole and resume after it. */
  function FindUrls(s: string): (urls: seq<string>)
    ensures forall k :: 0 <= k < |urls| ==> IsUrlToken(urls[k])
    decreases |s|
  {
    if s == [] then []
    else
      var n := MatchLength(s);
      if n > 0 then [s[..n]] + FindUrls(s[n..]) else FindUrls(s[1..])
  }

  /** `extract_urls(text)`; a message without text has no URLs. */
  function ExtractUrls(text: Option<string>): (urls: seq<string>)
    ensures forall k :: 0 <= k < |urls| ==> IsUrlToken(urls[k])
    ensures text.None? ==> urls == []
  {
    FindUrls(text.GetOr(""))
  }

  lemma {:induction false} NonSpaceRunOf(u: string, rest: string)
    requires forall i :: 0 <= i < |u| ==> !IsSpace(u[i])
    requires rest == [] || IsSpace(rest[0])
    ensures NonSpaceRun(u + rest) == |u|
  {
    if u != [] {
      assert (u + rest)[1..] == u[1..] + rest;
      NonSpaceRunOf(u[1..], rest);
    } else {
      assert u + rest == rest;
    }
  }

  /** A whole URL token followed by whitespace or the end is matched whole. */
  lemma MatchWholeToken(u: string, rest: string)
    requires IsUrlToken(u)
    requires rest == [] || IsSpace(rest[0])
    ensures MatchLength(u + rest) == |u|
  {
    var s := u + rest;
    if "https://" <= u {
      assert "https://" <= s;
      assert s[8..] == u[8..] + rest;
      NonSpaceRunOf(u[8..], rest);
    } else {
      assert "http://" <= s;
      assert s[4] == ':';
      assert !("https://" <= s);
      assert s[7..] == u[7..] + rest;
      NonSpaceRunOf(u[7..], rest);
    }
  }

  /** A whole URL token before a space is taken as one link and the scan resumes after the space. */
  lemma FindUrlsStep(u: string, tail: string)
    requires IsUrlToken(u)
    ensures FindUrls(u + [' '] + tail) == [u] + FindUrls(tail)
  {
    var s := u + [' '] + tail;
    assert s == u + ([' '] + tail);
    MatchWholeToken(u, [' '] + tail);
    assert s[..|u|] == u;
    assert s[|u|..] == [' '] + tail;
    assert MatchLength([' '] + tail) == 0;
    assert ([' '] + tail)[1..] == tail;
  }

  /** Text in which no `http://` or `https://` begins. */
  predicate NoUrlStart(w: string) {
    forall i :: 0 <= i < |w| ==> !("http://" <= w[i..]) && !("https://" <= w[i..])
  }

  /** A prefix without spaces that `w` does not start with is not a prefix
      of `w`, a space and more text either. */
  lemma NotPrefixAcrossSpace(p: string, w: string, tail: string)
    requires ' ' !in p && !(p <= w)
    ensures !(p <= w + [' '] + tail)
  {
    var s := w + [' '] + tail;
    if |w| >= |p| {
      assert s[..|p|] == w[..|p|];
    } else {
      assert s[|w|] == ' ';
    }
  }

  /** Nothing matches at the start of text that does not begin with
      `http://` or `https://` before its first space. */
  lemma NoMatchBeforeSpace(w: string, tail: string)
    requires !("http://" <= w) && !("https://" <= w)
    ensures MatchLength(w + [' '] + tail) == 0
  {
    NotPrefixAcrossSpace("http://", w, tail);
    NotPrefixAcrossSpace("https://", w, tail);
  }

  /** Words in which no link begins are skipped: the scan finds, after them
      and a space, exactly the links of the rest. */
  lemma {:induction false} SkipText(w: string, tail: string)
    requires NoUrlStart(w)
    ensures FindUrls(w + [' '] + tail) == FindUrls(tail)
    decreases |w|
  {
    var s := w + [' '] + tail;
    if w == [] {
      assert s == [' '] + tail;
      assert s[0] == ' ';
      assert MatchLength(s) == 0;
      assert s[1..] == tail;
    } else {
      assert w[0..] == w;
      NoMatchBeforeSpace(w, tail);
      assert s[1..] == w[1..] + [' '] + tail;
      forall i | 0 <= i < |w[1..]|
        ensures !("http://" <= w[1..][i..]) && !("https://" <= w[1..][i..])
      {
        assert w[1..][i..] == w[i + 1..];
      }
      SkipText(w[1..], tail);
    }
  }

  /** A link after ordinary words is found: `extract_urls(words + " " + link)`
      is `[link]` when no link begins in `words`, as for `see https://x.com/a`. */
  lemma LinkAfterWords(words: string, link: string)
    requires NoUrlStart(words) && IsUrlToken(link)
    ensures ExtractUrls(Some(words + " " + link)) == [link]
  {
    SkipText(words, link);
    ExtractJoinedUrls([link]);
    assert Join([link], ' ') == link;
  }

  /** Links separated by spaces are found again, each whole and in order:
      `extract_urls(" ".join(urls)) == urls` for every list of URL tokens. */
  lemma {:induction false} ExtractJoinedUrls(urls: seq<string>)
    requires forall k :: 0 <= k < |urls| ==> IsUrlToken(urls[k])
    ensures ExtractUrls(Some(Join(urls, ' '))) == urls
    decreases |urls|
  {
    if |urls| == 1 {
      var u := urls[0];
      assert Join(urls, ' ') == u;
      MatchWholeToken(u, []);
      assert u + [] == u;
      assert MatchLength(u) == |u|;
      assert u[..|u|] == u && u[|u|..] == [];
      assert FindUrls(u) == [u] + FindUrls([]);
    } else if |urls| > 1 {
      FindUrlsStep(urls[0], Join(urls[1..], ' '));
      ExtractJoinedUrls(urls[1..]);
      assert [urls[0]] + urls[1..] == urls;
    }
  }
}
