/** String operations with the semantics of Python's `str`: clamped slicing,
    single-character `replace`, `find` and `split` on every occurrence. */
module Text {

  datatype Option<T> = None | Some(value: T)

  /** `s[:n]` (also `s[0:n]`): slicing stops at the end of the string. */
  function Take(s: string, n: nat): (r: string)
    ensures r <= s
    ensures |r| == if n <= |s| then n else |s|
  {
    if n <= |s| then s[..n] else s
  }

  /** `s[n:]`: empty once `n` reaches the end of the string. */
  function Drop(s: string, n: nat): (r: string)
    ensures Take(s, n) + r == s
  {
    if n <= |s| then s[n..] else []
  }

  predicate StartsWith(s: string, p: string)
  {
    |p| <= |s| && s[..|p|] == p
  }

  /** Comparing a clamped slice with a literal is a prefix test. */
  lemma TakeIsPrefixTest(s: string, p: string)
    ensures Take(s, |p|) == p <==> StartsWith(s, p)
  {
  }

  predicate OccursAt(s: string, p: string, i: nat)
  {
    i + |p| <= |s| && s[i..i + |p|] == p
  }

  /** Python's `p in s`. */
  predicate Contains(s: string, p: string)
  {
    exists i: nat :: i <= |s| && OccursAt(s, p, i)
  }

  /** The first occurrence of `p` in `s` at or after position `k`. */
  function IndexFrom(s: string, p: string, k: nat): (r: Option<nat>)
    requires k <= |s|
    ensures r.Some? ==> k <= r.value && OccursAt(s, p, r.value)
    ensures r.Some? ==> forall j: nat :: k <= j < r.value ==> !OccursAt(s, p, j)
    ensures r.None? ==> forall j: nat :: k <= j ==> !OccursAt(s, p, j)
    decreases |s| - k
  {
    if k + |p| > |s| then None
    else if s[k..k + |p|] == p then Some(k)
    else IndexFrom(s, p, k + 1)
  }

  /** Python's `s.find(p)`, with `None` for -1. */
  function Find(s: string, p: string): (r: Option<nat>)
    ensures r.Some? <==> Contains(s, p)
    ensures r.Some? ==> OccursAt(s, p, r.value) && forall j: nat :: j < r.value ==> !OccursAt(s, p, j)
  {
    IndexFrom(s, p, 0)
  }

  /** A string strictly shorter than everything before the first occurrence holds no occurrence. */
  lemma PrefixBeforeFirst(s: string, p: string, i: nat)
    requires |p| > 0 && i <= |s|
    requires forall j: nat :: j < i ==> !OccursAt(s, p, j)
    ensures !Contains(s[..i], p)
  {
    forall j: nat | OccursAt(s[..i], p, j)
      ensures false
    {
      assert s[..i][j..j + |p|] == s[j..j + |p|];
      assert OccursAt(s, p, j);
    }
  }

  /** Python's `s.split(sep)`: cut at every non-overlapping occurrence, left to right. */
  function Split(s: string, sep: string): (r: seq<string>)
    requires |sep| > 0
    ensures |r| >= 1
    ensures |r| >= 2 <==> Contains(s, sep)
    ensures forall k :: 0 <= k < |r| ==> !Contains(r[k], sep)
    decreases |s|
  {
    match Find(s, sep)
    case None => [s]
    case Some(i) =>
      PrefixBeforeFirst(s, sep, i);
      [s[..i]] + Split(s[i + |sep|..], sep)
  }

  /** Python's `sep.join(parts)`. */
  function Join(parts: seq<string>, sep: string): string
  {
    if |parts| == 0 then []
    else if |parts| == 1 then parts[0]
    else parts[0] + sep + Join(parts[1..], sep)
  }

  /** Splitting loses nothing: joining the pieces back gives the original string. */
  lemma {:induction false} JoinSplit(s: string, sep: string)
    requires |sep| > 0
    ensures Join(Split(s, sep), sep) == s
    decreases |s|
  {
    match Find(s, sep)
    case None =>
    case Some(i) =>
      var rest := s[i + |sep|..];
      JoinSplit(rest, sep);
      assert Split(s, sep) == [s[..i]] + Split(rest, sep);
      assert s == s[..i] + s[i..i + |sep|] + rest;
  }

  /** No proper suffix of `sep` is also a prefix of it, so two occurrences never overlap. */
  predicate NoSelfOverlap(sep: string)
  {
    forall k :: 0 < k < |sep| ==> sep[k..] != sep[..|sep| - k]
  }

  /** Two overlapping occurrences of `sep` exhibit a proper suffix of it that is also a prefix. */
  lemma OverlapBorder(s: string, sep: string, j: nat, i: nat)
    requires OccursAt(s, sep, j) && OccursAt(s, sep, i)
    requires j < i < j + |sep|
    ensures sep[i - j..] == sep[..|sep| - (i - j)]
  {
    var k := i - j;
    assert sep[k..] == s[i..j + |sep|];
    assert sep[..|sep| - k] == s[i..j + |sep|];
  }

  /** If `a` holds no separator, `a + sep + t` splits first exactly after `a`. */
  lemma SplitAfterField(a: string, sep: string, t: string)
    requires |sep| > 0 && NoSelfOverlap(sep)
    requires !Contains(a, sep)
    ensures Split(a + sep + t, sep) == [a] + Split(t, sep)
  {
    var s := a + sep + t;
    assert s[..|a|] == a;
    assert s[|a|..|a| + |sep|] == sep;
    assert s[|a| + |sep|..] == t;
    assert OccursAt(s, sep, |a|);
    forall j: nat | j < |a|
      ensures !OccursAt(s, sep, j)
    {
      if OccursAt(s, sep, j) {
        if j + |sep| <= |a| {
          assert a[j..j + |sep|] == s[j..j + |sep|];
          assert OccursAt(a, sep, j);
        } else {
          OverlapBorder(s, sep, j, |a|);
          assert false;
        }
      }
    }
  }

  /** The first piece of a split is a prefix that ends the string or is followed by a separator. */
  lemma SplitHead(s: string, sep: string)
    requires |sep| > 0
    ensures var h := Split(s, sep)[0];
      h <= s && (|h| == |s| || OccursAt(s, sep, |h|))
    ensures |Split(s, sep)| >= 2 ==>
      Split(s, sep)[1..] == Split(s[|Split(s, sep)[0]| + |sep|..], sep)
  {
  }

  /** The first two pieces of a split, with where they sit in the string. */
  lemma SplitFirstTwo(s: string, sep: string)
    requires |sep| > 0 && Contains(s, sep)
    ensures var parts := Split(s, sep);
      var n := |parts[0]| + |sep| + |parts[1]|;
      s[..|parts[0]|] == parts[0] && OccursAt(s, sep, |parts[0]|)
      && n <= |s| && s[|parts[0]| + |sep|..n] == parts[1]
      && (n == |s| || OccursAt(s, sep, n))
  {
    var i := Find(s, sep).value;
    var rest := s[i + |sep|..];
    SplitHead(rest, sep);
    var b := Split(rest, sep)[0];
    assert Split(s, sep) == [s[..i]] + Split(rest, sep);
    SplitFieldsAt(s, sep, i, b);
  }

  lemma SplitFieldsAt(s: string, sep: string, i: nat, b: string)
    requires i + |sep| <= |s|
    requires b <= s[i + |sep|..]
    requires |b| == |s| - i - |sep| || OccursAt(s[i + |sep|..], sep, |b|)
    ensures var n := i + |sep| + |b|;
      n <= |s| && s[i + |sep|..n] == b && (n == |s| || OccursAt(s, sep, n))
  {
    var rest := s[i + |sep|..];
    var n := i + |sep| + |b|;
    assert s[i + |sep|..n] == rest[..|b|];
    if n < |s| {
      assert s[n..n + |sep|] == rest[|b|..|b| + |sep|];
    }
  }

  /** A string that differs from `p` at some position inside `p` does not start with `p`. */
  lemma DiffersAt(s: string, p: string, i: nat)
    requires i < |p| && i < |s| && s[i] != p[i]
    ensures !StartsWith(s, p)
  {
  }

  /** A string with no separator splits into itself alone. */
  lemma SplitWithout(s: string, sep: string)
    requires |sep| > 0
    requires !Contains(s, sep)
    ensures Split(s, sep) == [s]
  {
  }

  /** Python's `s.replace(c, rep)` for a one-character pattern `c`. */
  function ReplaceChar(s: string, c: char, rep: string): (r: string)
    ensures c !in rep ==> c !in r
    ensures forall x :: x in s && x != c ==> x in r
    ensures forall x :: x in r ==> (x in s && x != c) || x in rep
    decreases |s|
  {
    if s == [] then []
    else (if s[0] == c then rep else [s[0]]) + ReplaceChar(s[1..], c, rep)
  }

  lemma {:induction false} ReplaceCharAppend(a: string, b: string, c: char, rep: string)
    ensures ReplaceChar(a + b, c, rep) == ReplaceChar(a, c, rep) + ReplaceChar(b, c, rep)
    decreases |a|
  {
    if a == [] {
      assert a + b == b;
    } else {
      assert (a + b)[1..] == a[1..] + b;
      ReplaceCharAppend(a[1..], b, c, rep);
    }
  }

  /** Replacing a character that does not occur changes nothing. */
  lemma {:induction false} ReplaceCharAbsent(s: string, c: char, rep: string)
    requires c !in s
    ensures ReplaceChar(s, c, rep) == s
    decreases |s|
  {
    if s != [] {
      assert c !in s[1..];
      ReplaceCharAbsent(s[1..], c, rep);
    }
  }
}
