/**
 * Python's `str.split()` with no separator argument, as the assembler uses it
 * to cut the comment-free program text into instruction tokens
 * (assembler.py, line 25): runs of whitespace separate tokens, leading and
 * trailing whitespace yield nothing, and no token is empty.
 */
module TextSplit {

  /** The characters for which Python's `str.isspace()` holds. */
  predicate IsSpace(c: char) {
    || ('\t' <= c <= '\r')
    || ('\U{1C}' <= c <= '\U{1F}')
    || c == ' '
    || c == '\U{85}'
    || c == '\U{A0}'
    || c == '\U{1680}'
    || ('\U{2000}' <= c <= '\U{200A}')
    || c == '\U{2028}'
    || c == '\U{2029}'
    || c == '\U{202F}'
    || c == '\U{205F}'
    || c == '\U{3000}'
  }

  predicate NoSpace(s: string) {
    forall i :: 0 <= i < |s| ==> !IsSpace(s[i])
  }

  predicate AllSpace(s: string) {
    forall i :: 0 <= i < |s| ==> IsSpace(s[i])
  }

  /** What `str.split()` can return as an element: non-empty, without whitespace. */
  predicate IsToken(t: string) {
    |t| > 0 && NoSpace(t)
  }

  /** The strings of `ss`, one after the other. */
  function Concat(ss: seq<string>): string {
    if ss == [] then "" else ss[0] + Concat(ss[1..])
  }

  lemma {:induction false} ConcatAppend(xs: seq<string>, ys: seq<string>)
    ensures Concat(xs + ys) == Concat(xs) + Concat(ys)
  {
    if xs == [] {
      assert xs + ys == ys;
    } else {
      assert (xs + ys)[1..] == xs[1..] + ys;
      ConcatAppend(xs[1..], ys);
    }
  }

  /** `s` with every whitespace character removed. */
  function NonSpace(s: string): (r: string)
    ensures NoSpace(r)
    ensures |r| <= |s|
  {
    if s == [] then ""
    else if IsSpace(s[0]) then NonSpace(s[1..])
    else [s[0]] + NonSpace(s[1..])
  }

  /** Length of the leading run of non-whitespace characters of `s`. */
  function RunLength(s: string): (n: nat)
    ensures n <= |s|
    ensures NoSpace(s[..n])
    ensures n < |s| ==> IsSpace(s[n])
  {
    if s == [] || IsSpace(s[0]) then 0
    else
      var m := RunLength(s[1..]);
      assert s[..m + 1] == [s[0]] + s[1..][..m];
      1 + m
  }

  /** Python's `s.split()`: the maximal runs of non-whitespace characters of `s`, in order. */
  function Split(s: string): (ts: seq<string>)
    decreases |s|
    ensures forall i :: 0 <= i < |ts| ==> IsToken(ts[i])
  {
    if s == [] then []
    else if IsSpace(s[0]) then Split(s[1..])
    else
      var n := RunLength(s);
      [s[..n]] + Split(s[n..])
  }

  /** The tokens of `ts`, each followed by one space: a text that `Split` takes apart again. */
  function Unwords(ts: seq<string>): string {
    if ts == [] then "" else ts[0] + " " + Unwords(ts[1..])
  }

  /** A string made of whitespace alone (the empty string included) has no tokens, and only such a string. */
  lemma {:induction false} SplitEmptyIffAllSpace(s: string)
    ensures Split(s) == [] <==> AllSpace(s)
    decreases |s|
  {
    if s != [] {
      if IsSpace(s[0]) {
        SplitEmptyIffAllSpace(s[1..]);
        assert AllSpace(s) <==> AllSpace(s[1..]) by {
          if AllSpace(s[1..]) {
            forall i | 0 <= i < |s| ensures IsSpace(s[i]) {
              if i > 0 { assert s[i] == s[1..][i - 1]; }
            }
          }
        }
      } else {
        assert !AllSpace(s);
      }
    }
  }

  /** The tokens, read one after the other, are exactly the non-whitespace characters of `s`. */
  lemma {:induction false} SplitKeepsText(s: string)
    ensures Concat(Split(s)) == NonSpace(s)
    decreases |s|
  {
    if s == [] {
    } else if IsSpace(s[0]) {
      SplitKeepsText(s[1..]);
    } else {
      var n := RunLength(s);
      SplitKeepsText(s[n..]);
      assert Concat(Split(s)) == s[..n] + Concat(Split(s[n..]));
      NonSpaceOfRun(s, n);
    }
  }

  /** `NonSpace` keeps a whitespace-free prefix of `s` as it is. */
  lemma {:induction false} NonSpaceOfRun(s: string, n: nat)
    requires n <= |s| && NoSpace(s[..n])
    ensures NonSpace(s) == s[..n] + NonSpace(s[n..])
    decreases n
  {
    if n > 0 {
      assert !IsSpace(s[..n][0]);
      assert s[1..][..n - 1] == s[..n][1..];
      NonSpaceOfRun(s[1..], n - 1);
      assert s[1..][n - 1..] == s[n..];
      assert s[..n] == [s[0]] + s[1..][..n - 1];
    }
  }

  /** A token is its own one-element split. */
  lemma SplitOfToken(t: string)
    requires IsToken(t)
    ensures Split(t) == [t]
  {
    RunLengthOfNoSpace(t);
    assert t[..|t|] == t;
    assert t[|t|..] == "";
  }

  lemma {:induction false} RunLengthOfNoSpace(s: string)
    requires NoSpace(s)
    ensures RunLength(s) == |s|
    decreases |s|
  {
    if s != [] {
      RunLengthOfNoSpace(s[1..]);
    }
  }

  /** A run of non-whitespace never reaches past a whitespace character. */
  lemma {:induction false} RunLengthStopsAtSpace(a: string, w: char, b: string)
    requires IsSpace(w)
    ensures RunLength(a + [w] + b) == RunLength(a)
    decreases |a|
  {
    if a == [] {
      assert (a + [w] + b)[0] == w;
    } else {
      assert (a + [w] + b)[0] == a[0];
      assert (a + [w] + b)[1..] == a[1..] + [w] + b;
      RunLengthStopsAtSpace(a[1..], w, b);
    }
  }

  /**
   * Whitespace separates: the tokens of two texts joined by a whitespace
   * character are the tokens of the first followed by those of the second.
   */
  lemma {:induction false} SplitAtSpace(a: string, w: char, b: string)
    requires IsSpace(w)
    ensures Split(a + [w] + b) == Split(a) + Split(b)
    decreases |a|
  {
    var s := a + [w] + b;
    if a == [] {
      assert s[0] == w && s[1..] == b;
    } else if IsSpace(a[0]) {
      assert s[0] == a[0];
      assert s[1..] == a[1..] + [w] + b;
      SplitAtSpace(a[1..], w, b);
    } else {
      assert s[0] == a[0];
      RunLengthStopsAtSpace(a, w, b);
      var n := RunLength(a);
      assert s[..n] == a[..n];
      assert s[n..] == a[n..] + [w] + b;
      SplitAtSpace(a[n..], w, b);
    }
  }

  /** Round trip: splitting tokens written out with a space after each gives the same tokens back. */
  lemma {:induction false} SplitUnwords(ts: seq<string>)
    requires forall i :: 0 <= i < |ts| ==> IsToken(ts[i])
    ensures Split(Unwords(ts)) == ts
  {
    if ts != [] {
      SplitUnwords(ts[1..]);
      SplitAtSpace(ts[0], ' ', Unwords(ts[1..]));
      assert ts[0] + " " + Unwords(ts[1..]) == ts[0] + [' '] + Unwords(ts[1..]);
      SplitOfToken(ts[0]);
      assert ts == [ts[0]] + ts[1..];
    }
  }

  /** A character of one of the strings is a character of their concatenation, and conversely. */
  lemma {:induction false} InConcat(ss: seq<string>, c: char)
    ensures c in Concat(ss) <==> exists k :: 0 <= k < |ss| && c in ss[k]
  {
    if ss != [] {
      var rest := ss[1..];
      InConcat(rest, c);
      assert Concat(ss) == ss[0] + Concat(rest);
      if c in Concat(rest) {
        var k :| 0 <= k < |rest| && c in rest[k];
        assert rest[k] == ss[k + 1];
      }
      if exists k :: 0 <= k < |ss| && c in ss[k] {
        var k :| 0 <= k < |ss| && c in ss[k];
        if k > 0 {
          assert ss[k] == rest[k - 1];
        }
      }
    }
  }

  /** Removing whitespace keeps every other character. */
  lemma {:induction false} InNonSpace(s: string, c: char)
    requires !IsSpace(c)
    ensures c in NonSpace(s) <==> c in s
  {
    if s != [] {
      InNonSpace(s[1..], c);
      assert s == [s[0]] + s[1..];
    }
  }
}
