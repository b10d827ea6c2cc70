/** The guard that runs before a search query reaches the title index: the
    query is stripped of surrounding whitespace, a blank query yields the empty
    result list, and any other query is normalised like a catalog title. */
module Query {
  import Normalize

  /** Python's `str.isspace` for one character: the characters `str.strip()`
      removes when called without an argument. */
  predicate IsSpace(c: char) {
    || '\t' <= c <= '\r'
    || '\U{1C}' <= c <= '\U{1F}'
    || c == ' '
    || c == '\U{85}'
    || c == '\U{A0}'
    || c == '\U{1680}'
    || '\U{2000}' <= c <= '\U{200A}'
    || c == '\U{2028}'
    || c == '\U{2029}'
    || c == '\U{202F}'
    || c == '\U{205F}'
    || c == '\U{3000}'
  }

  /** The length of the whitespace run that starts `s`. */
  function LeadingSpaces(s: string): (n: nat)
    ensures n <= |s|
    ensures forall i :: 0 <= i < n ==> IsSpace(s[i])
    ensures n < |s| ==> !IsSpace(s[n])
  {
    if |s| > 0 && IsSpace(s[0]) then 1 + LeadingSpaces(s[1..]) else 0
  }

  /** The length of the whitespace run that ends `s`. */
  function TrailingSpaces(s: string): (n: nat)
    ensures n <= |s|
    ensures forall i :: |s| - n <= i < |s| ==> IsSpace(s[i])
    ensures n < |s| ==> !IsSpace(s[|s| - n - 1])
  {
    if |s| > 0 && IsSpace(s[|s| - 1]) then 1 + TrailingSpaces(s[..|s| - 1]) else 0
  }

  /** `str.strip()`: the slice of `s` that remains once the leading and the
      trailing whitespace runs are removed. */
  function Strip(s: string): (r: string)
    ensures LeadingSpaces(s) + |r| <= |s|
    ensures r == s[LeadingSpaces(s)..LeadingSpaces(s) + |r|]
    ensures forall i :: LeadingSpaces(s) + |r| <= i < |s| ==> IsSpace(s[i])
    ensures r != [] ==> !IsSpace(r[0]) && !IsSpace(r[|r| - 1])
    ensures r == [] <==> forall i :: 0 <= i < |s| ==> IsSpace(s[i])
  {
    var lead := LeadingSpaces(s);
    var rest := s[lead..];
    var r := rest[..|rest| - TrailingSpaces(rest)];
    assert r != [] ==> r[0] == s[lead];
    r
  }

  /** Strip is determined by its shape: a non-blank slice `s[i..j]` with only
      whitespace before and after it, and no whitespace at its two ends, is the
      stripped string. */
  lemma StripUnique(s: string, i: nat, j: nat)
    requires i < j <= |s|
    requires forall k :: 0 <= k < i ==> IsSpace(s[k])
    requires forall k :: j <= k < |s| ==> IsSpace(s[k])
    requires !IsSpace(s[i]) && !IsSpace(s[j - 1])
    ensures Strip(s) == s[i..j]
  {
    var lead := LeadingSpaces(s);
    var r := Strip(s);
    assert lead == i;
    assert r != [] by {
      assert !IsSpace(s[i]);
    }
    assert r[|r| - 1] == s[lead + |r| - 1];
  }

  /** Where each character of a padded string comes from. */
  lemma PaddedAt(pre: string, s: string, post: string, k: nat)
    requires k < |pre + s + post|
    ensures k < |pre| ==> (pre + s + post)[k] == pre[k]
    ensures |pre| <= k < |pre| + |s| ==> (pre + s + post)[k] == s[k - |pre|]
    ensures |pre| + |s| <= k ==> (pre + s + post)[k] == post[k - |pre| - |s|]
  {
  }

  lemma StripPaddedBlank(pre: string, s: string, post: string)
    requires forall k :: 0 <= k < |pre| ==> IsSpace(pre[k])
    requires forall k :: 0 <= k < |post| ==> IsSpace(post[k])
    requires Strip(s) == []
    ensures Strip(pre + s + post) == []
  {
    var padded := pre + s + post;
    forall k | 0 <= k < |padded| ensures IsSpace(padded[k]) {
      PaddedAt(pre, s, post, k);
    }
  }

  lemma StripPaddedNonBlank(pre: string, s: string, post: string)
    requires forall k :: 0 <= k < |pre| ==> IsSpace(pre[k])
    requires forall k :: 0 <= k < |post| ==> IsSpace(post[k])
    requires Strip(s) != []
    ensures Strip(pre + s + post) == Strip(s)
  {
    var padded := pre + s + post;
    var r := Strip(s);
    var lead := LeadingSpaces(s);
    var i := |pre| + lead;
    var j := i + |r|;
    assert padded[|pre|..|pre| + |s|] == s;
    assert padded[i..j] == r;
    forall k | 0 <= k < i ensures IsSpace(padded[k]) {
      PaddedAt(pre, s, post, k);
    }
    forall k | j <= k < |padded| ensures IsSpace(padded[k]) {
      PaddedAt(pre, s, post, k);
    }
    assert padded[i] == r[0] && padded[j - 1] == r[|r| - 1];
    StripUnique(padded, i, j);
  }

  /** Surrounding whitespace never changes what strip returns. */
  lemma StripIgnoresPadding(pre: string, s: string, post: string)
    requires forall k :: 0 <= k < |pre| ==> IsSpace(pre[k])
    requires forall k :: 0 <= k < |post| ==> IsSpace(post[k])
    ensures Strip(pre + s + post) == Strip(s)
  {
    if Strip(s) == [] {
      StripPaddedBlank(pre, s, post);
    } else {
      StripPaddedNonBlank(pre, s, post);
    }
  }

  /** What the search endpoint does with its query before vectorising it:
      nothing to search for, or the terms handed to the title index. */
  datatype SearchInput = NoQuery | Terms(text: string)

  /** The strip / empty-check / clean_title prelude of the search endpoint. */
  function PrepareQuery(query: string): (q: SearchInput)
    ensures q.NoQuery? <==> forall i :: 0 <= i < |query| ==> IsSpace(query[i])
    ensures q.Terms? ==> q.text == Normalize.CleanTitle(Strip(query))
    ensures q.Terms? ==> forall i :: 0 <= i < |q.text| ==> Normalize.IsTitleChar(q.text[i])
  {
    var stripped := Strip(query);
    if stripped == "" then NoQuery else Terms(Normalize.CleanTitle(stripped))
  }

  /** A non-blank query can still clean to nothing: "!!!" survives the guard
      and reaches the index as the empty string. */
  lemma PunctuationOnlyQueryPassesGuard()
    ensures PrepareQuery("!!!") == Terms("")
  {
    var q := "!!!";
    assert LeadingSpaces(q) == 0;
    assert q[0..] == q;
    assert TrailingSpaces(q) == 0;
    assert q[..3] == q;
    assert Strip(q) == q;
    assert Normalize.CleanTitle(q[2..]) == "";
    assert Normalize.CleanTitle(q[1..]) == "";
  }

  /** Padding a query with whitespace does not change what is searched for. */
  lemma PrepareQueryIgnoresPadding(pre: string, query: string, post: string)
    requires forall k :: 0 <= k < |pre| ==> IsSpace(pre[k])
    requires forall k :: 0 <= k < |post| ==> IsSpace(post[k])
    ensures PrepareQuery(pre + query + post) == PrepareQuery(query)
  {
    StripIgnoresPadding(pre, query, post);
  }

  /** The terms handed on are already clean: normalising them again is a no-op. */
  lemma PreparedTermsAreClean(query: string)
    requires PrepareQuery(query).Terms?
    ensures Normalize.CleanTitle(PrepareQuery(query).text) == PrepareQuery(query).text
  {
    Normalize.CleanTitleIdempotent(Strip(query));
  }
}
