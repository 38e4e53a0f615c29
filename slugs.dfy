/** Turning a problem URL into its slug, the identifier that joins the static
    problem catalog with the list of accepted submissions.

    The component does this with JavaScript's `String.prototype.split` on '/'
    followed by `parts.pop() || parts.pop()`. `Split` below is that split,
    `ExtractSlug` is the pop-based procedure, and `Slug` is an independent
    statement of what the procedure computes: the text after the last '/',
    or, when that text is empty, the last segment of the URL with its final
    '/' removed. */
module Slugs {

  datatype Option<T> = None | Some(value: T)

  const Slash: char := '/'

  /** The text after the last occurrence of `sep` in `s` (all of `s` when it
      holds no `sep`): the longest suffix of `s` free of separators. */
  function LastSegment(s: string, sep: char): (r: string)
    ensures sep !in r
    ensures |r| <= |s| && r == s[|s| - |r|..]
    ensures |r| == |s| || s[|s| - |r| - 1] == sep
    decreases |s|
  {
    if s == [] || s[|s| - 1] == sep then []
    else LastSegment(s[..|s| - 1], sep) + [s[|s| - 1]]
  }

  /** How the last segment changes when one character is appended. */
  lemma LastSegmentSnoc(s: string, c: char, sep: char)
    ensures LastSegment(s + [c], sep) == if c == sep then [] else LastSegment(s, sep) + [c]
  {
    assert (s + [c])[..|s|] == s;
  }

  /** Whatever precedes the last separator, the segment after it is the
      last segment. */
  lemma LastSegmentAfterSeparator(x: string, y: string, sep: char)
    requires sep !in y
    ensures LastSegment(x + [sep] + y, sep) == y
  {
    var s := x + [sep] + y;
    assert sep !in s[|x| + 1..] by {
      assert s[|x| + 1..] == y;
    }
    assert s[|x|] == sep;
    assert s[|s| - |y|..] == y;
  }

  /** JavaScript's `s.split(sep)` for a one-character separator: the pieces of
      `s` between separators, always at least one (the empty string splits
      into `[""]`, and a trailing separator yields a trailing empty piece). */
  function Split(s: string, sep: char): (parts: seq<string>)
    ensures |parts| >= 1
    ensures forall i :: 0 <= i < |parts| ==> sep !in parts[i]
    decreases |s|
  {
    if s == [] then [[]]
    else
      var init := Split(s[..|s| - 1], sep);
      var c := s[|s| - 1];
      if c == sep then init + [[]]
      else init[..|init| - 1] + [init[|init| - 1] + [c]]
  }

  /** JavaScript's `parts.join(sep)`: the pieces with one separator between
      each two neighbours. */
  function Join(parts: seq<string>, sep: char): string
    requires |parts| >= 1
    decreases |parts|
  {
    if |parts| == 1 then parts[0]
    else Join(parts[..|parts| - 1], sep) + [sep] + parts[|parts| - 1]
  }

  /** Splitting loses nothing: joining the pieces gives back the input. */
  lemma {:induction false} JoinSplit(s: string, sep: char)
    ensures Join(Split(s, sep), sep) == s
    decreases |s|
  {
    if s != [] {
      var init := Split(s[..|s| - 1], sep);
      var c := s[|s| - 1];
      JoinSplit(s[..|s| - 1], sep);
      var parts := Split(s, sep);
      if c == sep {
        assert parts == init + [[]];
        assert parts[..|parts| - 1] == init;
        assert s == s[..|s| - 1] + [sep] + [];
      } else if |init| == 1 {
        assert parts == [init[0] + [c]];
        assert s == s[..|s| - 1] + [c];
      } else {
        var front := init[..|init| - 1];
        assert parts == front + [init[|init| - 1] + [c]];
        assert parts[..|parts| - 1] == front;
        assert init[..|init| - 1] == front;
        assert Join(init, sep) == Join(front, sep) + [sep] + init[|init| - 1];
        assert s == s[..|s| - 1] + [c];
      }
    }
  }

  /** A string without separators splits into itself. */
  lemma {:induction false} SplitSinglePiece(y: string, sep: char)
    requires sep !in y
    ensures Split(y, sep) == [y]
    decreases |y|
  {
    if y != [] {
      var y' := y[..|y| - 1];
      assert sep !in y' by {
        forall k | 0 <= k < |y'| ensures y'[k] != sep {
          assert y'[k] == y[k];
        }
      }
      SplitSinglePiece(y', sep);
      assert y' + [y[|y| - 1]] == y;
    }
  }

  /** Appending a separator and a separator-free piece appends that piece. */
  lemma {:induction false} SplitAppendPiece(x: string, y: string, sep: char)
    requires sep !in y
    ensures Split(x + [sep] + y, sep) == Split(x, sep) + [y]
    decreases |y|
  {
    var s := x + [sep] + y;
    if y == [] {
      assert s[..|s| - 1] == x;
    } else {
      var y' := y[..|y| - 1];
      assert sep !in y' by {
        forall k | 0 <= k < |y'| ensures y'[k] != sep {
          assert y'[k] == y[k];
        }
      }
      var d := y[|y| - 1];
      SplitAppendPiece(x, y', sep);
      var init := Split(x + [sep] + y', sep);
      assert s[..|s| - 1] == x + [sep] + y';
      assert Split(s, sep) == init[..|init| - 1] + [init[|init| - 1] + [d]];
      assert init[..|init| - 1] == Split(x, sep);
      assert init[|init| - 1] + [d] == y;
    }
  }

  /** The converse round trip: separator-free pieces joined and split again
      come back unchanged, so `Split` is the only decomposition of a string
      into separator-free pieces. */
  lemma {:induction false} SplitJoin(parts: seq<string>, sep: char)
    requires |parts| >= 1
    requires forall i :: 0 <= i < |parts| ==> sep !in parts[i]
    ensures Split(Join(parts, sep), sep) == parts
    decreases |parts|
  {
    if |parts| == 1 {
      SplitSinglePiece(parts[0], sep);
    } else {
      var init := parts[..|parts| - 1];
      SplitJoin(init, sep);
      SplitAppendPiece(Join(init, sep), parts[|parts| - 1], sep);
      assert init + [parts[|parts| - 1]] == parts;
    }
  }

  /** The last piece of the split is the last segment. */
  lemma {:induction false} SplitLastIsLastSegment(s: string, sep: char)
    ensures Split(s, sep)[|Split(s, sep)| - 1] == LastSegment(s, sep)
    decreases |s|
  {
    if s != [] {
      SplitLastIsLastSegment(s[..|s| - 1], sep);
    }
  }

  /** What `extractSlug(url)` yields: the text after the last '/', unless
      that is empty, in which case the last segment of the URL with its
      final '/' removed; for
      the empty URL the second `pop` finds nothing and the result is
      `undefined` (`None`). */
  function Slug(url: string): (r: Option<string>)
    ensures r.None? <==> url == []
    ensures r.Some? ==> Slash !in r.value
  {
    var last := LastSegment(url, Slash);
    if last != [] then Some(last)
    else if url == [] then None
    else Some(LastSegment(url[..|url| - 1], Slash))
  }

  /** `extractSlug` as the component runs it: split on '/', pop the last
      piece, and if it is empty (falsy) pop once more. */
  method ExtractSlug(url: string) returns (slug: Option<string>)
    ensures slug == Slug(url)
  {
    var parts := Split(url, Slash);
    SplitLastIsLastSegment(url, Slash);
    // parts.pop(): split never returns an empty array
    var top := parts[|parts| - 1];
    parts := parts[..|parts| - 1];
    if top != [] {
      slug := Some(top);
    } else if parts == [] {
      // a second pop on an empty array yields undefined; only "" gets here
      slug := None;
    } else {
      // the fallback pop: url ends in '/', so its split is the split of
      // url without that '/' followed by one empty piece; what this pop
      // leaves of the array is never read again
      assert url != [] && url[|url| - 1] == Slash;
      assert parts == Split(url[..|url| - 1], Slash);
      SplitLastIsLastSegment(url[..|url| - 1], Slash);
      slug := Some(parts[|parts| - 1]);
    }
  }

  /** The slug is always one of the pieces `url.split('/')` returns. */
  lemma SlugIsSplitPiece(url: string)
    requires url != []
    ensures Slug(url).value in Split(url, Slash)
  {
    var parts := Split(url, Slash);
    SplitLastIsLastSegment(url, Slash);
    if LastSegment(url, Slash) == [] {
      var url' := url[..|url| - 1];
      assert url[|url| - 1] == Slash;
      assert parts == Split(url', Slash) + [[]];
      SplitLastIsLastSegment(url', Slash);
      assert parts[|parts| - 2] == LastSegment(url', Slash);
    } else {
      assert parts[|parts| - 1] == LastSegment(url, Slash);
    }
  }

  /** A URL that does not end in '/' yields its last segment, the text
      after its last '/' (the whole URL when it has none), and that text is
      not empty. */
  lemma SlugWithoutTrailingSlash(url: string)
    requires url != [] && url[|url| - 1] != Slash
    ensures LastSegment(url, Slash) != []
    ensures Slug(url) == Some(LastSegment(url, Slash))
  {
  }

  /** One trailing '/' does not change the slug: ".../two-sum/" and
      ".../two-sum" both give "two-sum". */
  lemma SlugIgnoresOneTrailingSlash(url: string)
    requires url != [] && url[|url| - 1] != Slash
    ensures Slug(url + [Slash]) == Slug(url)
  {
    LastSegmentSnoc(url, Slash, Slash);
    assert (url + [Slash])[..|url|] == url;
    SlugWithoutTrailingSlash(url);
  }

  /** The slug of "<prefix>/<name>" and of "<prefix>/<name>/" is <name>,
      for any prefix and any non-empty name without '/'. */
  lemma SlugOfLastPathSegment(prefix: string, name: string)
    requires name != [] && Slash !in name
    ensures Slug(prefix + [Slash] + name) == Some(name)
    ensures Slug(prefix + [Slash] + name + [Slash]) == Some(name)
  {
    var url := prefix + [Slash] + name;
    LastSegmentAfterSeparator(prefix, name, Slash);
    assert url[|url| - 1] == name[|name| - 1];
    SlugIgnoresOneTrailingSlash(url);
  }

  /** The fallback is taken once only: with two trailing '/'s the slug is the
      empty string. */
  lemma SlugAfterTwoTrailingSlashes(url: string)
    ensures Slug(url + [Slash, Slash]) == Some([])
  {
    var u := url + [Slash, Slash];
    assert u == (url + [Slash]) + [Slash];
    assert u[..|u| - 1] == url + [Slash];
    LastSegmentSnoc(url + [Slash], Slash, Slash);
    LastSegmentSnoc(url, Slash, Slash);
  }

  /** Two spellings of one problem URL. */
  lemma TwoSumSlug()
    ensures Slug("https://leetcode.com/problems/two-sum") == Some("two-sum")
    ensures Slug("https://leetcode.com/problems/two-sum/") == Some("two-sum")
  {
    var prefix := "https://leetcode.com/problems";
    assert "https://leetcode.com/problems/two-sum" == prefix + [Slash] + "two-sum";
    assert "https://leetcode.com/problems/two-sum/" == prefix + [Slash] + "two-sum" + [Slash];
    SlugOfLastPathSegment(prefix, "two-sum");
  }
}
