/** The parts of Go's `strings` package that the argument normaliser relies on,
    for a separator of one character. */
module GoStrings {

  /** `t` occurs in `s` starting at offset `i`. */
  predicate OccursAt(s: string, t: string, i: nat)
  {
    i + |t| <= |s| && s[i..i + |t|] == t
  }

  /** strings.Contains(s, t), scanning `s` from the left. */
  predicate Contains(s: string, t: string)
  {
    |t| <= |s| && (s[..|t|] == t || (|s| > 0 && Contains(s[1..], t)))
  }

  /** Contains agrees with "t occurs somewhere in s". */
  lemma {:induction false} ContainsIff(s: string, t: string)
    ensures Contains(s, t) <==> exists i: nat :: i <= |s| - |t| && OccursAt(s, t, i)
  {
    if |t| <= |s| && s[..|t|] != t && |s| > 0 {
      ContainsIff(s[1..], t);
      forall i: nat | i <= |s| - |t|
        ensures OccursAt(s, t, i) <==> i > 0 && OccursAt(s[1..], t, i - 1)
      {
        if i > 0 {
          assert s[1..][i - 1..i - 1 + |t|] == s[i..i + |t|];
        }
      }
      if Contains(s[1..], t) {
        var j: nat :| j <= |s| - 1 - |t| && OccursAt(s[1..], t, j);
        assert OccursAt(s, t, j + 1);
      }
    } else if |t| <= |s| && s[..|t|] == t {
      assert OccursAt(s, t, 0);
    }
  }

  /** The number of times `c` occurs in `s` (strings.Count for one character). */
  function Count(s: string, c: char): nat
  {
    if s == [] then 0 else (if s[0] == c then 1 else 0) + Count(s[1..], c)
  }

  /** Counting distributes over concatenation. */
  lemma {:induction false} CountAppend(a: string, b: string, c: char)
    ensures Count(a + b, c) == Count(a, c) + Count(b, c)
  {
    if a != [] {
      assert (a + b)[1..] == a[1..] + b;
      CountAppend(a[1..], b, c);
    } else {
      assert a + b == b;
    }
  }

  /** A character is absent exactly when it is counted zero times. */
  lemma {:induction false} CountZero(s: string, c: char)
    ensures Count(s, c) == 0 <==> c !in s
  {
    if s != [] {
      CountZero(s[1..], c);
      assert s == [s[0]] + s[1..];
    }
  }

  /** strings.Index(s, string(c)): the offset of the first `c`, or -1 when there is none. */
  function Index(s: string, c: char): (k: int)
    ensures -1 <= k < |s|
    ensures k >= 0 ==> s[k] == c && c !in s[..k]
    ensures k < 0 ==> c !in s
  {
    if s == [] then -1
    else if s[0] == c then 0
    else
      var k := Index(s[1..], c);
      if k < 0 then -1
      else
        assert s[..k + 1] == [s[0]] + s[1..][..k];
        k + 1
  }

  /** strings.Join(parts, string(sep)). */
  function Join(parts: seq<string>, sep: char): string
    requires |parts| > 0
  {
    if |parts| == 1 then parts[0] else parts[0] + [sep] + Join(parts[1..], sep)
  }

  /** strings.SplitN(s, string(sep), n) for n > 0: at most n pieces, the last of which
      keeps the unsplit rest of `s`; there is one piece more than there are separators
      unless that exceeds n. */
  function SplitN(s: string, sep: char, n: nat): (parts: seq<string>)
    requires n > 0
    ensures 1 <= |parts| <= n
    decreases n
  {
    var m := Index(s, sep);
    if n == 1 || m < 0 then [s] else [s[..m]] + SplitN(s[m + 1..], sep, n - 1)
  }

  /** SplitN makes one piece more than there are separators, but never more than n. */
  lemma {:induction false} SplitNLength(s: string, sep: char, n: nat)
    requires n > 0
    ensures |SplitN(s, sep, n)| == if Count(s, sep) + 1 < n then Count(s, sep) + 1 else n
    decreases n
  {
    var m := Index(s, sep);
    if n == 1 || m < 0 {
      CountZero(s, sep);
    } else {
      SplitCount(s, sep, m);
      SplitNLength(s[m + 1..], sep, n - 1);
    }
  }

  /** Cutting a string at a separator leaves one separator fewer in the rest. */
  lemma SplitCount(s: string, sep: char, m: nat)
    requires m < |s| && s[m] == sep && sep !in s[..m]
    ensures Count(s[m + 1..], sep) == Count(s, sep) - 1
  {
    assert s == s[..m] + ([sep] + s[m + 1..]);
    CountAppend(s[..m], [sep] + s[m + 1..], sep);
    CountAppend([sep], s[m + 1..], sep);
    CountZero(s[..m], sep);
  }

  /** Joining the pieces with the separator gives back the string. */
  lemma {:induction false} SplitNJoin(s: string, sep: char, n: nat)
    requires n > 0
    ensures Join(SplitN(s, sep, n), sep) == s
    decreases n
  {
    var m := Index(s, sep);
    if n > 1 && m >= 0 {
      var tail := SplitN(s[m + 1..], sep, n - 1);
      SplitNJoin(s[m + 1..], sep, n - 1);
      JoinCons(s[..m], tail, sep);
      CutAt(s, m);
    }
  }

  /** A string is the text before offset m, the character at m, and the text after it. */
  lemma CutAt(s: string, m: nat)
    requires m < |s|
    ensures s == s[..m] + [s[m]] + s[m + 1..]
  {
  }

  /** No piece but the last holds a separator. */
  lemma {:induction false} SplitNPiecesFree(s: string, sep: char, n: nat, i: nat)
    requires n > 0 && i < |SplitN(s, sep, n)| - 1
    ensures sep !in SplitN(s, sep, n)[i]
    decreases n
  {
    var m := Index(s, sep);
    if i > 0 {
      SplitNPiecesFree(s[m + 1..], sep, n - 1, i - 1);
    }
  }

  /** With fewer separators than n, the last piece holds none either. */
  lemma {:induction false} SplitNLastFree(s: string, sep: char, n: nat)
    requires n > 0 && Count(s, sep) < n
    ensures sep !in SplitN(s, sep, n)[|SplitN(s, sep, n)| - 1]
    decreases n
  {
    var m := Index(s, sep);
    if n == 1 || m < 0 {
      CountZero(s, sep);
    } else {
      SplitCount(s, sep, m);
      SplitNLastFree(s[m + 1..], sep, n - 1);
    }
  }

  /** Join on a piece followed by at least one more. */
  lemma JoinCons(first: string, tail: seq<string>, sep: char)
    requires |tail| > 0
    ensures Join([first] + tail, sep) == first + [sep] + Join(tail, sep)
  {
    assert ([first] + tail)[1..] == tail;
  }

  /** The offset of the first occurrence of `c` is determined by where it first appears. */
  lemma IndexAt(s: string, c: char, k: nat)
    requires k < |s| && s[k] == c && c !in s[..k]
    ensures Index(s, c) == k
  {
  }

  /** SplitN cuts at the first separator and splits the rest into one piece fewer. */
  lemma SplitNFirst(s: string, sep: char, n: nat, first: string, rest: string)
    requires n > 1 && s == first + [sep] + rest && sep !in first
    ensures SplitN(s, sep, n) == [first] + SplitN(rest, sep, n - 1)
  {
    assert s[..|first|] == first;
    IndexAt(s, sep, |first|);
    assert s[|first| + 1..] == rest;
  }

  /** Without a separator, SplitN returns the whole string as its only piece. */
  lemma SplitNNone(s: string, sep: char, n: nat)
    requires n > 0 && sep !in s
    ensures SplitN(s, sep, n) == [s]
  {
  }

  /** A string that contains "://" holds at least two slashes. */
  lemma SchemeHasTwoSlashes(s: string)
    requires Contains(s, "://")
    ensures Count(s, '/') >= 2
  {
    ContainsIff(s, "://");
    var i: nat :| i <= |s| - 3 && OccursAt(s, "://", i);
    assert s[i + 1] == '/' && s[i + 2] == '/' by { assert s[i..i + 3] == "://"; }
    assert s == s[..i + 1] + (['/', '/'] + s[i + 3..]);
    CountAppend(s[..i + 1], ['/', '/'] + s[i + 3..], '/');
    CountAppend(['/', '/'], s[i + 3..], '/');
  }
}
