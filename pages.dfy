/**
 * What WebCrawler decides about a fetched page: whether the status code is
 * a success, and whether the body contains the job's keyword.
 */
module Pages {
  import opened AsciiText

  /** Java's `int / int` for a positive divisor: the quotient truncated toward zero. */
  function JavaDiv(a: int, b: int): int
    requires b > 0
  {
    if a >= 0 then a / b else -((-a) / b)
  }

  /** `statusCode / 100 == 2`. */
  predicate IsSuccess(status: int)
    ensures IsSuccess(status) <==> 200 <= status <= 299
  {
    JavaDiv(status, 100) == 2
  }

  /**
   * The keyword occurs in `text` at position `p`, comparing character by
   * character under ASCII case folding (a quoted, CASE_INSENSITIVE pattern).
   */
  predicate OccursAt(text: string, keyword: string, p: nat)
  {
    p + |keyword| <= |text| &&
    forall j :: 0 <= j < |keyword| ==> SameIgnoringCase(text[p + j], keyword[j])
  }

  /** Searches for an occurrence of `keyword` at position `from` or later. */
  function FindFrom(text: string, keyword: string, from: nat): (found: bool)
    ensures found <==> exists p: nat :: from <= p && OccursAt(text, keyword, p)
    decreases |text| - from
  {
    if from + |keyword| > |text| then false
    else if OccursAt(text, keyword, from) then true
    else FindFrom(text, keyword, from + 1)
  }

  /** `keywordPattern.matcher(body).find()`: the keyword occurs somewhere in the body. */
  function ContainsKeyword(body: string, keyword: string): (found: bool)
    ensures found <==> exists p: nat :: OccursAt(body, keyword, p)
  {
    FindFrom(body, keyword, 0)
  }

  /** Changing the case of ASCII letters in the body does not change whether the keyword is found. */
  lemma KeywordMatchIgnoresCase(body: string, folded: string, keyword: string)
    requires |body| == |folded|
    requires forall i :: 0 <= i < |body| ==> SameIgnoringCase(body[i], folded[i])
    ensures ContainsKeyword(body, keyword) == ContainsKeyword(folded, keyword)
  {
    if ContainsKeyword(body, keyword) {
      var p: nat :| OccursAt(body, keyword, p);
      assert OccursAt(folded, keyword, p);
    }
    if ContainsKeyword(folded, keyword) {
      var p: nat :| OccursAt(folded, keyword, p);
      assert OccursAt(body, keyword, p);
    }
  }
}
