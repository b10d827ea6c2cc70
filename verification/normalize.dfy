/** Normalisation of catalog fields: `clean_title`, applied to every title and
    to search queries, and `clean_genres`, applied to the pipe-delimited genre
    field. Both are total functions on strings. */
module Normalize {

  /** An ASCII letter, `a`-`z` or `A`-`Z`. */
  predicate IsAsciiLetter(c: char) {
    'a' <= c <= 'z' || 'A' <= c <= 'Z'
  }

  /** An ASCII digit, `0`-`9`. */
  predicate IsAsciiDigit(c: char) {
    '0' <= c <= '9'
  }

  /** The character class `[a-zA-Z0-9 ]`: the only characters a clean title keeps. */
  predicate IsTitleChar(c: char) {
    IsAsciiLetter(c) || IsAsciiDigit(c) || c == ' '
  }

  /** clean_title: every character outside `[a-zA-Z0-9 ]` is deleted; case,
      spacing and the order of the kept characters are untouched. */
  function CleanTitle(title: string): (r: string)
    ensures |r| <= |title|
    ensures forall i :: 0 <= i < |r| ==> IsTitleChar(r[i])
  {
    if |title| == 0 then ""
    else if IsTitleChar(title[0]) then [title[0]] + CleanTitle(title[1..])
    else CleanTitle(title[1..])
  }

  /** No letter, digit or space is ever removed: each occurs in the clean
      title exactly as often as in the title. */
  lemma {:induction false} CleanTitleKeepsTitleChars(title: string, c: char)
    requires IsTitleChar(c)
    ensures multiset(CleanTitle(title))[c] == multiset(title)[c]
  {
    if |title| > 0 {
      CleanTitleKeepsTitleChars(title[1..], c);
      assert title == [title[0]] + title[1..];
    }
  }

  /** The positions at or after `from` that hold a title character, ascending.
      This is the reference the filter is compared against. */
  function KeptPositions(title: string, from: nat): (ps: seq<nat>)
    requires from <= |title|
    ensures forall k :: 0 <= k < |ps| ==> from <= ps[k] < |title| && IsTitleChar(title[ps[k]])
    ensures forall k, l :: 0 <= k < l < |ps| ==> ps[k] < ps[l]
    decreases |title| - from
  {
    if from == |title| then []
    else if IsTitleChar(title[from]) then [from] + KeptPositions(title, from + 1)
    else KeptPositions(title, from + 1)
  }

  /** No position holding a title character is missed. */
  lemma {:induction false} KeptPositionsComplete(title: string, from: nat, i: nat)
    requires from <= i < |title| && IsTitleChar(title[i])
    ensures i in KeptPositions(title, from)
    decreases |title| - from
  {
    if from < i {
      KeptPositionsComplete(title, from + 1, i);
    }
  }

  lemma {:induction false} CleanSuffixIsFilter(title: string, from: nat)
    requires from <= |title|
    ensures |CleanTitle(title[from..])| == |KeptPositions(title, from)|
    ensures forall k :: 0 <= k < |KeptPositions(title, from)| ==>
              CleanTitle(title[from..])[k] == title[KeptPositions(title, from)[k]]
    decreases |title| - from
  {
    if from < |title| {
      var suffix := title[from..];
      assert suffix[0] == title[from];
      assert suffix[1..] == title[from + 1..];
      CleanSuffixIsFilter(title, from + 1);
      var ps := KeptPositions(title, from + 1);
      var r := CleanTitle(title[from + 1..]);
      if IsTitleChar(title[from]) {
        assert KeptPositions(title, from) == [from] + ps;
        assert CleanTitle(suffix) == [title[from]] + r;
        forall k | 0 < k < |ps| + 1
          ensures ([title[from]] + r)[k] == title[([from] + ps)[k]]
        {
          assert ([title[from]] + r)[k] == r[k - 1];
          assert ([from] + ps)[k] == ps[k - 1];
        }
      } else {
        assert KeptPositions(title, from) == ps;
        assert CleanTitle(suffix) == r;
      }
    }
  }

  /** The clean title is exactly the title's characters at the positions that
      hold a letter, digit or space, in ascending order of position. */
  lemma CleanTitleIsFilter(title: string)
    ensures forall i :: 0 <= i < |title| && IsTitleChar(title[i]) ==> i in KeptPositions(title, 0)
    ensures |CleanTitle(title)| == |KeptPositions(title, 0)|
    ensures forall k :: 0 <= k < |KeptPositions(title, 0)| ==>
              CleanTitle(title)[k] == title[KeptPositions(title, 0)[k]]
  {
    assert title[0..] == title;
    CleanSuffixIsFilter(title, 0);
    forall i | 0 <= i < |title| && IsTitleChar(title[i]) ensures i in KeptPositions(title, 0) {
      KeptPositionsComplete(title, 0, i);
    }
  }

  /** Cleaning distributes over concatenation. */
  lemma {:induction false} CleanTitleAppend(a: string, b: string)
    ensures CleanTitle(a + b) == CleanTitle(a) + CleanTitle(b)
  {
    if |a| == 0 {
      assert a + b == b;
    } else {
      assert (a + b)[0] == a[0];
      assert (a + b)[1..] == a[1..] + b;
      CleanTitleAppend(a[1..], b);
    }
  }

  /** A title is left unchanged exactly when it holds only letters, digits and spaces. */
  lemma {:induction false} CleanTitleFixedPoint(title: string)
    ensures CleanTitle(title) == title <==> forall i :: 0 <= i < |title| ==> IsTitleChar(title[i])
  {
    if |title| > 0 && forall i :: 0 <= i < |title| ==> IsTitleChar(title[i]) {
      CleanTitleFixedPoint(title[1..]);
      assert forall i :: 0 <= i < |title[1..]| ==> IsTitleChar(title[1..][i]) by {
        forall i | 0 <= i < |title[1..]| ensures IsTitleChar(title[1..][i]) {
          assert title[1..][i] == title[i + 1];
        }
      }
      assert title == [title[0]] + title[1..];
    }
  }

  /** Cleaning twice is cleaning once. */
  lemma {:induction false} CleanTitleIdempotent(title: string)
    ensures CleanTitle(CleanTitle(title)) == CleanTitle(title)
  {
    CleanTitleFixedPoint(CleanTitle(title));
  }

  /** The number of times `c` occurs in `s`. */
  function Occurrences(s: string, c: char): nat
  {
    if |s| == 0 then 0
    else (if s[0] == c then 1 else 0) + Occurrences(s[1..], c)
  }

  /** str.split with a one-character separator: the maximal separator-free
      pieces, in order; the empty string splits into one empty piece. */
  function Split(s: string, sep: char): (parts: seq<string>)
    ensures |parts| == Occurrences(s, sep) + 1
    ensures forall k :: 0 <= k < |parts| ==> sep !in parts[k]
  {
    if |s| == 0 then [""]
    else
      var rest := Split(s[1..], sep);
      if s[0] == sep then [""] + rest
      else [[s[0]] + rest[0]] + rest[1..]
  }

  /** str.join: the parts, in order, with `glue` between neighbours. */
  function Join(parts: seq<string>, glue: string): string
  {
    if |parts| == 0 then ""
    else if |parts| == 1 then parts[0]
    else parts[0] + glue + Join(parts[1..], glue)
  }

  /** Every occurrence of `sep` replaced by `glue`, one character at a time.
      This is the reference definition `clean_genres` is compared against. */
  function Replace(s: string, sep: char, glue: string): string
  {
    if |s| == 0 then ""
    else (if s[0] == sep then glue else [s[0]]) + Replace(s[1..], sep, glue)
  }

  /** Each replaced character grows the string by `|glue| - 1`. */
  lemma {:induction false} ReplaceLength(s: string, sep: char, glue: string)
    ensures |Replace(s, sep, glue)| == |s| + (|glue| - 1) * Occurrences(s, sep)
  {
    if |s| > 0 {
      ReplaceLength(s[1..], sep, glue);
      var g, o := |glue| - 1, Occurrences(s[1..], sep);
      assert g * (o + 1) == g * o + g;
    }
  }

  /** A glue without the separator leaves no separator behind. */
  lemma {:induction false} ReplaceRemovesSep(s: string, sep: char, glue: string)
    requires sep !in glue
    ensures sep !in Replace(s, sep, glue)
  {
    if |s| > 0 {
      ReplaceRemovesSep(s[1..], sep, glue);
    }
  }

  /** A string without the separator is its own replacement. */
  lemma {:induction false} ReplaceWithoutSep(s: string, sep: char, glue: string)
    requires sep !in s
    ensures Replace(s, sep, glue) == s
  {
    if |s| > 0 {
      assert s[0] != sep;
      ReplaceWithoutSep(s[1..], sep, glue);
      assert s == [s[0]] + s[1..];
    }
  }

  /** Splitting on a character and joining with `glue` replaces that character by `glue`. */
  lemma {:induction false} JoinSplit(s: string, sep: char, glue: string)
    ensures Join(Split(s, sep), glue) == Replace(s, sep, glue)
  {
    if |s| > 0 {
      JoinSplit(s[1..], sep, glue);
      var rest := Split(s[1..], sep);
      if s[0] == sep {
        assert Split(s, sep) == [""] + rest;
        assert ([""] + rest)[1..] == rest;
      } else {
        var parts := [[s[0]] + rest[0]] + rest[1..];
        assert Split(s, sep) == parts;
        if |rest| == 1 {
          assert Join(parts, glue) == [s[0]] + rest[0];
        } else {
          assert parts[1..] == rest[1..];
          assert Join(parts, glue) == [s[0]] + rest[0] + glue + Join(rest[1..], glue);
        }
      }
    }
  }

  /** Joining the pieces back with the separator restores the input. */
  lemma {:induction false} SplitRoundTrip(s: string, sep: char)
    ensures Join(Split(s, sep), [sep]) == s
  {
    JoinSplit(s, sep, [sep]);
    ReplaceBySelf(s, sep);
  }

  lemma {:induction false} ReplaceBySelf(s: string, sep: char)
    ensures Replace(s, sep, [sep]) == s
  {
    if |s| > 0 {
      ReplaceBySelf(s[1..], sep);
      assert s == [s[0]] + s[1..];
    }
  }

  /** clean_genres: `", ".join(genres.split('|'))`. */
  function CleanGenres(genres: string): string
  {
    Join(Split(genres, '|'), ", ")
  }

  /** The genre label is the raw field with every `|` replaced by `", "`: no
      `|` is left, the length grows by one per `|`, and a field without `|`
      (the empty field included) comes back unchanged. */
  lemma {:induction false} CleanGenresReplacesPipes(genres: string)
    ensures CleanGenres(genres) == Replace(genres, '|', ", ")
    ensures '|' !in CleanGenres(genres)
    ensures |CleanGenres(genres)| == |genres| + Occurrences(genres, '|')
    ensures '|' !in genres ==> CleanGenres(genres) == genres
  {
    JoinSplit(genres, '|', ", ");
    ReplaceLength(genres, '|', ", ");
    ReplaceRemovesSep(genres, '|', ", ");
    if '|' !in genres {
      ReplaceWithoutSep(genres, '|', ", ");
    }
  }
}
