/**
 * The JavaScript string and array primitives the docs page relies on:
 * `indexOf`, `split`, `join` and out-of-range array indexing. Strings are
 * sequences of characters; JavaScript's `-1` and `undefined` become `None`.
 */
module JsString {
  import opened Wrappers

  /** `pat` occurs in `s` starting at index `i`. */
  predicate OccursAt(s: string, pat: string, i: nat) {
    i + |pat| <= |s| && s[i..i + |pat|] == pat
  }

  /** The first occurrence of `pat` in `s` at or after index `k`. */
  function IndexFrom(s: string, pat: string, k: nat): (r: Option<nat>)
    requires |pat| > 0 && k <= |s|
    ensures r.Some? ==> k <= r.value && OccursAt(s, pat, r.value)
    ensures forall j: nat :: k <= j && (r.None? || j < r.value) ==> !OccursAt(s, pat, j)
    decreases |s| - k
  {
    if k + |pat| > |s| then None
    else if s[k..k + |pat|] == pat then Some(k)
    else IndexFrom(s, pat, k + 1)
  }

  /** `s.indexOf(pat)`, with `-1` as `None`. */
  function IndexOf(s: string, pat: string): (r: Option<nat>)
    requires |pat| > 0
    ensures r.Some? ==> OccursAt(s, pat, r.value)
    ensures forall j: nat :: (r.None? || j < r.value) ==> !OccursAt(s, pat, j)
  {
    IndexFrom(s, pat, 0)
  }

  /** `parts.join(sep)`. */
  function Join(parts: seq<string>, sep: string): string {
    if |parts| == 0 then ""
    else if |parts| == 1 then parts[0]
    else parts[0] + sep + Join(parts[1..], sep)
  }

  /** Joining a piece in front of at least one more puts the separator between them. */
  lemma JoinCons(head: string, rest: seq<string>, sep: string)
    requires |rest| >= 1
    ensures Join([head] + rest, sep) == head + sep + Join(rest, sep)
  {
    assert ([head] + rest)[1..] == rest;
  }

  /** An occurrence inside a prefix of `s` is an occurrence in `s`. */
  lemma OccursInPrefix(s: string, n: nat, pat: string, j: nat)
    requires n <= |s| && OccursAt(s[..n], pat, j)
    ensures OccursAt(s, pat, j)
  {
    assert s[..n][j..j + |pat|] == s[j..j + |pat|];
  }

  /** An occurrence that ends within the first `n` characters is an occurrence in that prefix. */
  lemma OccursInLongPrefix(s: string, n: nat, pat: string, j: nat)
    requires n <= |s| && j + |pat| <= n && OccursAt(s, pat, j)
    ensures OccursAt(s[..n], pat, j)
  {
    assert s[..n][j..j + |pat|] == s[j..j + |pat|];
  }

  /**
   * The text up to the first `c` and the rest from there on (empty when
   * `c` does not occur): the cut `indexOf` and `slice` make.
   */
  function CutAt(s: string, c: char): (r: (string, string))
    ensures r.0 + r.1 == s
    ensures c !in r.0 && (r.1 == "" || r.1[0] == c)
  {
    IndexOfChar(s, c);
    var cut := match IndexOf(s, [c]) case None => |s| case Some(i) => i;
    (s[..cut], s[cut..])
  }

  /** The cut is the only one with those properties. */
  lemma CutAtUnique(before: string, after: string, c: char)
    requires c !in before && (after == "" || after[0] == c)
    ensures CutAt(before + after, c) == (before, after)
  {
    var s := before + after;
    if after == "" {
      assert s == before;
      IndexOfChar(s, c);
    } else {
      assert s[..|before|] == before;
      IndexOfCharAt(s, c, |before|);
      assert s[|before|..] == after;
    }
  }

  /**
   * `s.split(sep)` for a non-empty separator: the pieces between the
   * non-overlapping occurrences of `sep`, scanned from the left.
   */
  function Split(s: string, sep: string): (parts: seq<string>)
    requires |sep| > 0
    ensures |parts| >= 1
    ensures Join(parts, sep) == s
    decreases |s|
  {
    match IndexOf(s, sep)
    case None => [s]
    case Some(i) =>
      var rest := Split(s[i + |sep|..], sep);
      JoinCons(s[..i], rest, sep);
      assert s == s[..i] + sep + s[i + |sep|..];
      [s[..i]] + rest
  }

  /** `parts[i]`, which JavaScript evaluates to `undefined` past the end. */
  function Nth(parts: seq<string>, i: nat): (r: Option<string>)
    ensures r.Some? <==> i < |parts|
    ensures r.Some? ==> r.value == parts[i]
  {
    if i < |parts| then Some(parts[i]) else None
  }

  /** For a one-character pattern, `indexOf` finds the first index holding that character. */
  lemma IndexOfChar(s: string, c: char)
    ensures IndexOf(s, [c]).None? <==> c !in s
    ensures IndexOf(s, [c]).Some? ==>
              var i := IndexOf(s, [c]).value; i < |s| && s[i] == c && c !in s[..i]
  {
    match IndexOf(s, [c])
    case None =>
      forall j | 0 <= j < |s|
        ensures s[j] != c
      {
        assert !OccursAt(s, [c], j);
        assert s[j..j + 1] == [s[j]];
      }
    case Some(i) =>
      assert s[i..i + 1] == [s[i]];
      forall j | 0 <= j < i
        ensures s[..i][j] != c
      {
        assert !OccursAt(s, [c], j);
        assert s[j..j + 1] == [s[j]];
      }
  }

  /** The converse of `IndexOfChar`: the first index holding `c` is what `indexOf` returns. */
  lemma IndexOfCharAt(s: string, c: char, i: nat)
    requires i < |s| && s[i] == c && c !in s[..i]
    ensures IndexOf(s, [c]) == Some(i)
  {
    IndexOfChar(s, c);
    var r := IndexOf(s, [c]);
    assert s[i..i + 1] == [c];
    assert OccursAt(s, [c], i);
    assert r.Some?;
  }

  /** Splitting at a character that does not occur yields the whole string. */
  lemma SplitCharAbsent(s: string, c: char)
    requires c !in s
    ensures Split(s, [c]) == [s]
  {
    IndexOfChar(s, c);
  }

  /** Splitting peels off the text before the first separator character. */
  lemma SplitCharFirst(a: string, c: char, b: string)
    requires c !in a
    ensures Split(a + [c] + b, [c]) == [a] + Split(b, [c])
  {
    var s := a + [c] + b;
    assert s[..|a|] == a;
    IndexOfCharAt(s, c, |a|);
    assert s[|a| + 1..] == b;
  }

  /** The first piece of a split never contains the separator. */
  lemma SplitHeadFree(s: string, sep: string)
    requires |sep| > 0
    ensures IndexOf(Split(s, sep)[0], sep).None?
  {
    match IndexOf(s, sep)
    case None =>
    case Some(i) =>
      var head := Split(s, sep)[0];
      assert head == s[..i];
      match IndexOf(head, sep)
      case None =>
      case Some(j) =>
        OccursInPrefix(s, i, sep, j);
        assert false;
  }

  /** When `sep` first occurs in `a + sep` at the end, `a + sep + b` splits there first. */
  lemma SplitAtAppended(a: string, sep: string, b: string)
    requires |sep| > 0 && IndexOf(a + sep, sep) == Some(|a|)
    ensures Split(a + sep + b, sep) == [a] + Split(b, sep)
  {
    var s := a + sep + b;
    var n := |a + sep|;
    assert s[..n] == a + sep;
    assert OccursAt(s, sep, |a|) by {
      assert s[|a|..|a| + |sep|] == sep;
    }
    match IndexOf(s, sep)
    case None =>
    case Some(i) =>
      if i < |a| {
        OccursInLongPrefix(s, n, sep, i);
        assert false;
      }
      assert i == |a|;
      assert s[..i] == a;
      assert s[i + |sep|..] == b;
  }

  /** Splitting text where the separator does not occur yields the whole text. */
  lemma SplitAbsent(s: string, sep: string)
    requires |sep| > 0 && IndexOf(s, sep).None?
    ensures Split(s, sep) == [s]
  {
  }

  /** The first piece of a split is a prefix of the text. */
  lemma SplitHeadPrefix(s: string, sep: string)
    requires |sep| > 0
    ensures |Split(s, sep)[0]| <= |s| && s[..|Split(s, sep)[0]|] == Split(s, sep)[0]
    ensures |Split(s, sep)[0]| == |s| || OccursAt(s, sep, |Split(s, sep)[0]|)
  {
  }

  /** Past the first occurrence, the second piece of a split is the first piece of the rest. */
  lemma SplitSecond(s: string, sep: string, i: nat)
    requires |sep| > 0 && IndexOf(s, sep) == Some(i)
    ensures i + |sep| <= |s|
    ensures Nth(Split(s, sep), 1) == Some(Split(s[i + |sep|..], sep)[0])
  {
    assert Split(s, sep) == [s[..i]] + Split(s[i + |sep|..], sep);
  }

  /** A prefix of a suffix is a slice of the whole text. */
  lemma SliceOfSuffix(s: string, k: nat, n: nat)
    requires k + n <= |s|
    ensures s[k..k + n] == s[k..][..n]
  {
  }

  /** An occurrence in a suffix is an occurrence in the whole text, shifted by the cut. */
  lemma OccursInSuffix(s: string, k: nat, pat: string, j: nat)
    requires k <= |s| && OccursAt(s[k..], pat, j)
    ensures OccursAt(s, pat, k + j)
  {
    assert s[k + j..k + j + |pat|] == s[k..][j..j + |pat|];
  }

  /** An occurrence at or after the cut is an occurrence in the suffix, shifted back by the cut. */
  lemma OccursInSuffixBack(s: string, k: nat, pat: string, j: nat)
    requires k <= j && OccursAt(s, pat, j)
    ensures OccursAt(s[k..], pat, j - k)
  {
    assert s[k..][j - k..j - k + |pat|] == s[j..j + |pat|];
  }

  /**
   * The first piece of a suffix, cut from position `k`: a slice of the
   * whole text free of the separator, which runs to the end of the text or
   * to an occurrence of the separator in it.
   */
  lemma SuffixHead(s: string, k: nat, sep: string)
    requires |sep| > 0 && k <= |s|
    ensures var n := |Split(s[k..], sep)[0]|;
            && k + n <= |s|
            && s[k..k + n] == Split(s[k..], sep)[0]
            && IndexOf(Split(s[k..], sep)[0], sep).None?
            && (k + n == |s| || OccursAt(s, sep, k + n))
  {
    SplitHeadFree(s[k..], sep);
    SplitHeadPrefix(s[k..], sep);
    var n := |Split(s[k..], sep)[0]|;
    SliceOfSuffix(s, k, n);
    if n < |s[k..]| {
      OccursInSuffix(s, k, sep, n);
    }
  }

  /** The separator starts nowhere inside the first piece of a split. */
  lemma SplitHeadFirst(s: string, sep: string)
    requires |sep| > 0
    ensures forall j: nat :: j < |Split(s, sep)[0]| ==> !OccursAt(s, sep, j)
  {
    match IndexOf(s, sep)
    case None =>
    case Some(i) =>
      assert |Split(s, sep)[0]| == i;
  }

  /**
   * Nor does it start inside the first piece of a suffix, counted in the
   * whole text, so that piece ends at the first occurrence after the cut.
   */
  lemma SuffixHeadFirst(s: string, k: nat, sep: string)
    requires |sep| > 0 && k <= |s|
    ensures forall j: nat :: k <= j < k + |Split(s[k..], sep)[0]| ==> !OccursAt(s, sep, j)
  {
    SplitHeadFirst(s[k..], sep);
    forall j: nat | k <= j < k + |Split(s[k..], sep)[0]|
      ensures !OccursAt(s, sep, j)
    {
      if OccursAt(s, sep, j) {
        OccursInSuffixBack(s, k, sep, j);
      }
    }
  }
}
