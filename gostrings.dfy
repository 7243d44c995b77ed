/** The two pieces of Go string semantics the node relies on:
    strings.TrimSpace, applied to every line read from the terminal, and the
    built-in ordering of strings, used on peer IDs (a peer.ID is a Go string
    of raw bytes, compared byte by byte). */
module GoStrings {
  import opened Common

  /** unicode.IsSpace: the Latin-1 spaces ('\t' to '\r', ' ', U+0085,
      U+00A0) plus the Unicode White_Space characters outside Latin-1. */
  predicate IsSpace(c: char): (r: bool)
    // Within ASCII: space, tab, line feed, vertical tab, form feed, carriage return.
    ensures c < '\U{80}' ==>
              (r <==> c == ' ' || c == '\t' || c == '\n' || c == '\U{B}' || c == '\U{C}' || c == '\r')
  {
    || c == ' '
    || '\t' <= c <= '\r'
    || c == '\U{85}' || c == '\U{A0}' || c == '\U{1680}'
    || '\U{2000}' <= c <= '\U{200A}'
    || c == '\U{2028}' || c == '\U{2029}' || c == '\U{202F}' || c == '\U{205F}'
    || c == '\U{3000}'
  }

  predicate AllSpace(s: string) {
    forall i :: 0 <= i < |s| ==> IsSpace(s[i])
  }

  /** strings.TrimSpace: s with its leading and trailing white space
      removed. Neither end of the result is a space. */
  function TrimSpace(s: string): (r: string)
    ensures |r| <= |s|
    ensures r == [] || (!IsSpace(r[0]) && !IsSpace(r[|r| - 1]))
    decreases |s|
  {
    if |s| > 0 && IsSpace(s[0]) then TrimSpace(s[1..])
    else if |s| > 0 && IsSpace(s[|s| - 1]) then TrimSpace(s[..|s| - 1])
    else s
  }

  /** What TrimSpace cuts away is white space on either side of a contiguous
      slice of its input. */
  lemma {:induction false} TrimSpaceSlice(s: string) returns (i: nat)
    ensures i + |TrimSpace(s)| <= |s|
    ensures TrimSpace(s) == s[i..i + |TrimSpace(s)|]
    ensures AllSpace(s[..i]) && AllSpace(s[i + |TrimSpace(s)|..])
    decreases |s|, 1
  {
    if |s| > 0 && IsSpace(s[0]) {
      i := TrimSpaceSliceFront(s);
    } else if |s| > 0 && IsSpace(s[|s| - 1]) {
      i := TrimSpaceSliceBack(s);
    } else {
      i := 0;
      assert TrimSpace(s) == s;
      assert s[..0] == [] && s[|s|..] == [] && s[0..|s|] == s;
    }
  }

  /** TrimSpaceSlice when s starts with white space. */
  lemma {:induction false} TrimSpaceSliceFront(s: string) returns (i: nat)
    requires |s| > 0 && IsSpace(s[0])
    ensures i + |TrimSpace(s)| <= |s|
    ensures TrimSpace(s) == s[i..i + |TrimSpace(s)|]
    ensures AllSpace(s[..i]) && AllSpace(s[i + |TrimSpace(s)|..])
    decreases |s|, 0
  {
    var r := TrimSpace(s);
    assert r == TrimSpace(s[1..]);
    var j := TrimSpaceSlice(s[1..]);
    i := SliceShift(s, r, j);
  }

  /** TrimSpaceSlice when s starts with something other than white space
      and ends with white space. */
  lemma {:induction false} TrimSpaceSliceBack(s: string) returns (i: nat)
    requires |s| > 0 && !IsSpace(s[0]) && IsSpace(s[|s| - 1])
    ensures i + |TrimSpace(s)| <= |s|
    ensures TrimSpace(s) == s[i..i + |TrimSpace(s)|]
    ensures AllSpace(s[..i]) && AllSpace(s[i + |TrimSpace(s)|..])
    decreases |s|, 0
  {
    var r := TrimSpace(s);
    assert r == TrimSpace(s[..|s| - 1]);
    i := TrimSpaceSlice(s[..|s| - 1]);
    SliceDrop(s, r, i);
  }

  /** A slice of s[1..] framed by white space, seen as a slice of s, when
      s[0] is white space. */
  lemma SliceShift(s: string, r: string, j: nat) returns (i: nat)
    requires |s| > 0 && IsSpace(s[0]) && j + |r| <= |s| - 1
    requires r == s[1..][j..j + |r|]
    requires AllSpace(s[1..][..j]) && AllSpace(s[1..][j + |r|..])
    ensures i == j + 1 && i + |r| <= |s| && r == s[i..i + |r|]
    ensures AllSpace(s[..i]) && AllSpace(s[i + |r|..])
  {
    i := j + 1;
    assert s[1..][j..j + |r|] == s[i..i + |r|];
    assert s[..i] == [s[0]] + s[1..][..j];
    assert s[i + |r|..] == s[1..][j + |r|..];
  }

  /** A slice of s[..|s| - 1] framed by white space, seen as a slice of s,
      when the last character of s is white space. */
  lemma SliceDrop(s: string, r: string, i: nat)
    requires |s| > 0 && IsSpace(s[|s| - 1]) && i + |r| <= |s| - 1
    requires r == s[..|s| - 1][i..i + |r|]
    requires AllSpace(s[..|s| - 1][..i]) && AllSpace(s[..|s| - 1][i + |r|..])
    ensures r == s[i..i + |r|]
    ensures AllSpace(s[..i]) && AllSpace(s[i + |r|..])
  {
    assert s[..|s| - 1][i..i + |r|] == s[i..i + |r|];
    assert s[..i] == s[..|s| - 1][..i];
    assert s[i + |r|..] == s[..|s| - 1][i + |r|..] + [s[|s| - 1]];
  }

  /** Trimming is idempotent: a line that has been trimmed once is unchanged
      by a second trim. */
  lemma TrimSpaceIdempotent(s: string)
    ensures TrimSpace(TrimSpace(s)) == TrimSpace(s)
  {
  }

  /** Padding a word that has no white space at either end with white space
      on both sides does not change what TrimSpace returns. */
  lemma {:induction false} TrimSpacePadded(pre: string, w: string, post: string)
    requires AllSpace(pre) && AllSpace(post)
    requires w == [] || (!IsSpace(w[0]) && !IsSpace(w[|w| - 1]))
    ensures TrimSpace(pre + w + post) == w
    decreases |pre| + |post|, 1
  {
    if pre != [] {
      PaddedFront(pre, w, post);
    } else if post != [] {
      PaddedBack(w, post);
    } else {
      assert pre + w + post == w;
    }
  }

  /** TrimSpacePadded when there is white space before the word. */
  lemma {:induction false} PaddedFront(pre: string, w: string, post: string)
    requires pre != [] && AllSpace(pre) && AllSpace(post)
    requires w == [] || (!IsSpace(w[0]) && !IsSpace(w[|w| - 1]))
    ensures TrimSpace(pre + w + post) == w
    decreases |pre| + |post|, 0
  {
    var s := pre + w + post;
    assert s[0] == pre[0];
    assert s[1..] == pre[1..] + w + post;
    TrimSpacePadded(pre[1..], w, post);
  }

  /** TrimSpacePadded when there is white space after the word only. */
  lemma {:induction false} PaddedBack(w: string, post: string)
    requires post != [] && AllSpace(post)
    requires w == [] || (!IsSpace(w[0]) && !IsSpace(w[|w| - 1]))
    ensures TrimSpace([] + w + post) == w
    decreases |post|, 0
  {
    var s := [] + w + post;
    if w == [] {
      assert s == post && s[0] == post[0];
      assert s[1..] == [] + w + post[1..];
      TrimSpacePadded([], w, post[1..]);
    } else {
      assert s == w + post && s[0] == w[0];
      assert s[|s| - 1] == post[|post| - 1];
      assert s[..|s| - 1] == [] + w + post[..|post| - 1];
      TrimSpacePadded([], w, post[..|post| - 1]);
    }
  }

  /** Go's a < b on strings: bytewise lexicographic order, a proper prefix
      coming first. */
  predicate Less(a: Bytes, b: Bytes): (r: bool)
    ensures |a| < |b| && a == b[..|a|] ==> r
    ensures r && |b| <= |a| ==> a[..|b|] != b
    decreases |a|
  {
    if b == [] then false
    else if a == [] then true
    else if a[0] != b[0] then a[0] < b[0]
    else Less(a[1..], b[1..])
  }

  lemma {:induction false} LessIrreflexive(a: Bytes)
    ensures !Less(a, a)
    decreases |a|
  {
    if a != [] {
      LessIrreflexive(a[1..]);
    }
  }

  lemma {:induction false} LessAsymmetric(a: Bytes, b: Bytes)
    ensures Less(a, b) ==> !Less(b, a)
    decreases |a|
  {
    if a != [] && b != [] && a[0] == b[0] {
      LessAsymmetric(a[1..], b[1..]);
    }
  }

  /** The order is total: two different IDs are always ordered one way. */
  lemma {:induction false} LessConnected(a: Bytes, b: Bytes)
    requires a != b
    ensures Less(a, b) || Less(b, a)
    decreases |a|
  {
    if a != [] && b != [] && a[0] == b[0] {
      assert a == [a[0]] + a[1..] && b == [b[0]] + b[1..];
      LessConnected(a[1..], b[1..]);
    }
  }

  lemma {:induction false} LessTransitive(a: Bytes, b: Bytes, c: Bytes)
    requires Less(a, b) && Less(b, c)
    ensures Less(a, c)
    decreases |a|
  {
    if a != [] && a[0] == b[0] && b[0] == c[0] {
      LessTransitive(a[1..], b[1..], c[1..]);
    }
  }
}
