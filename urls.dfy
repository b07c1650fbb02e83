/**
 * The URL rules of WebCrawler: normalisation of the configured base URL,
 * the literal-prefix scope test and the naive relative-URL resolver.
 */
module Urls {

  /** The configured base URL with exactly one trailing '/' removed, if any. */
  function NormalizeBase(configured: string): (base: string)
    ensures |configured| > 0 && configured[|configured| - 1] == '/' ==> base + "/" == configured
    ensures (|configured| == 0 || configured[|configured| - 1] != '/') ==> base == configured
    ensures base <= configured && |configured| - |base| <= 1
  {
    if |configured| > 0 && configured[|configured| - 1] == '/' then configured[..|configured| - 1]
    else configured
  }

  /** `url.startsWith(base)`: a literal string prefix test, not a path-segment test. */
  predicate InScope(url: string, base: string)
  {
    base <= url
  }

  /** The scope test compares characters one by one over the whole base, and nothing else. */
  lemma InScopeIsCharwisePrefix(url: string, base: string)
    ensures InScope(url, base) <==> |base| <= |url| && forall i :: 0 <= i < |base| ==> url[i] == base[i]
  {
  }

  /** An in-scope URL stays in scope whatever is appended to it. */
  lemma ExtensionStaysInScope(url: string, suffix: string, base: string)
    requires InScope(url, base)
    ensures InScope(url + suffix, base)
  {
    assert (url + suffix)[..|base|] == url[..|base|];
  }

  /** `s.lastIndexOf(c)`: the last position holding `c`, or -1 when there is none. */
  function LastIndexOf(s: string, c: char): (r: int)
    ensures -1 <= r < |s|
    ensures r >= 0 ==> s[r] == c
    ensures forall k :: r < k < |s| ==> s[k] != c
  {
    if |s| == 0 then -1
    else if s[|s| - 1] == c then |s| - 1
    else LastIndexOf(s[..|s| - 1], c)
  }

  /** The "directory" of a page URL: everything up to and including its last '/'. */
  function Directory(current: string): (dir: string)
  {
    current[..LastIndexOf(current, '/') + 1]
  }

  /** The directory is the prefix that ends at the last '/', and empty when there is no '/'. */
  lemma DirectoryIsUpToLastSlash(current: string)
    ensures Directory(current) <= current
    ensures Directory(current) == [] <==> '/' !in current
    ensures Directory(current) != [] ==> Directory(current)[|Directory(current)| - 1] == '/'
    ensures forall k :: |Directory(current)| <= k < |current| ==> current[k] != '/'
  {
    var r := LastIndexOf(current, '/');
    if '/' in current {
      var k :| 0 <= k < |current| && current[k] == '/';
      assert k <= r;
    }
  }

  /**
   * `resolveRelativeUrl(currentUrl, href)`. Absolute links (anything that
   * starts with "http") are kept; a root-relative link is appended to the
   * CURRENT page URL (the parameter shadows the base-URL field in the
   * source); anything else replaces the part after the last '/' of the page.
   */
  function Resolve(current: string, href: string): (r: string)
  {
    if "http" <= href || "https" <= href then href
    else if "/" <= href then current + href
    else Directory(current) + href
  }

  /**
   * The three cases of the resolver; the "https" test never decides
   * anything, since every "https" link also starts with "http". In every
   * case the link itself ends the result.
   */
  lemma ResolveCases(current: string, href: string)
    ensures "http" <= href ==> Resolve(current, href) == href
    ensures !("http" <= href) && "/" <= href ==> Resolve(current, href) == current + href
    ensures !("http" <= href) && !("/" <= href) ==> Resolve(current, href) == Directory(current) + href
    ensures |href| <= |Resolve(current, href)|
    ensures Resolve(current, href)[|Resolve(current, href)| - |href|..] == href
  {
    var r := Resolve(current, href);
    if "https" <= href {
      assert href[..4] == "https"[..4];
    }
    assert r == (if "http" <= href then [] else if "/" <= href then current else Directory(current)) + href;
  }

  /** A root-relative link found on an in-scope page stays in scope. */
  lemma RootRelativeStaysInScope(current: string, href: string, base: string)
    requires InScope(current, base)
    requires !("http" <= href) && "/" <= href
    ensures InScope(Resolve(current, href), base)
  {
    ResolveCases(current, href);
    ExtensionStaysInScope(current, href, base);
  }
}
