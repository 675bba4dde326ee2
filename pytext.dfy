/**
 * The handful of Python built-ins that both labs lean on, given the meaning
 * Python gives them: slicing with clipping and negative bounds, `str.lower`,
 * `str.strip`, `str.split()` and `str.split(sep)`, `list.count`, `in`, string
 * comparison and reversal. Text is restricted to what the labs need: case
 * folding and whitespace are the ASCII ones.
 */
module PyText {

  // ---------------------------------------------------------------------------
  // Slicing

  /** A slice bound as Python normalises it: counted from the end when
      negative, then clipped to the valid range [0, n]. */
  function ClipBound(k: int, n: nat): (r: nat)
    ensures r <= n
    ensures 0 <= k <= n ==> r == k
    ensures k > n ==> r == n
    ensures k < 0 ==> r == (if n + k < 0 then 0 else n + k)
  {
    var shifted := if k < 0 then n + k else k;
    if shifted < 0 then 0 else if shifted > n then n else shifted
  }

  /** Python's `s[lo:hi]`. */
  function Slice<T>(s: seq<T>, lo: int, hi: int): (r: seq<T>)
    ensures |r| <= |s|
    ensures ClipBound(lo, |s|) < ClipBound(hi, |s|) ==> r == s[ClipBound(lo, |s|)..ClipBound(hi, |s|)]
    ensures ClipBound(hi, |s|) <= ClipBound(lo, |s|) ==> r == []
  {
    var l, h := ClipBound(lo, |s|), ClipBound(hi, |s|);
    if l < h then s[l..h] else []
  }

  /** Python's `s[k]` for an index that may be negative (counted from the end). */
  function PyAt<T>(s: seq<T>, k: int): (r: T)
    requires -|s| <= k < |s|
    ensures 0 <= k ==> r == s[k]
    ensures k < 0 ==> r == s[|s| + k]
  {
    if k < 0 then s[|s| + k] else s[k]
  }

  // ---------------------------------------------------------------------------
  // Counting, membership, subsequences, reversal

  /** Python's `s.count(x)`. */
  function Count<T(==)>(s: seq<T>, x: T): (n: nat)
    ensures n <= |s|
    ensures n == 0 <==> x !in s
  {
    if s == [] then 0 else (if s[0] == x then 1 else 0) + Count(s[1..], x)
  }

  lemma {:induction false} CountAppend<T>(s: seq<T>, t: seq<T>, x: T)
    ensures Count(s + t, x) == Count(s, x) + Count(t, x)
  {
    if s != [] {
      assert (s + t)[1..] == s[1..] + t;
      CountAppend(s[1..], t, x);
    } else {
      assert s + t == t;
    }
  }

  lemma ConcatAssociative<T>(s: seq<T>, t: seq<T>, u: seq<T>)
    ensures (s + t) + u == s + (t + u)
  {
  }

  function Max(x: int, y: int): int { if x >= y then x else y }
  function Min(x: int, y: int): int { if x <= y then x else y }

  /** No element occurs twice. */
  predicate Distinct<T(==)>(s: seq<T>) {
    forall i, j :: 0 <= i < j < |s| ==> s[i] != s[j]
  }

  /** `s` can be obtained from `t` by deleting elements, keeping the order. */
  predicate IsSubsequence<T(==)>(s: seq<T>, t: seq<T>)
    decreases |t|
  {
    |s| <= |t| &&
    (s == []
     || (s[|s| - 1] == t[|t| - 1] && IsSubsequence(s[..|s| - 1], t[..|t| - 1]))
     || IsSubsequence(s, t[..|t| - 1]))
  }

  lemma {:induction false} SubsequenceElements<T>(s: seq<T>, t: seq<T>)
    requires IsSubsequence(s, t)
    ensures forall x :: x in s ==> x in t
    decreases |t|
  {
    if s != [] {
      if s[|s| - 1] == t[|t| - 1] && IsSubsequence(s[..|s| - 1], t[..|t| - 1]) {
        SubsequenceElements(s[..|s| - 1], t[..|t| - 1]);
        forall x | x in s ensures x in t {
          if x != s[|s| - 1] {
            assert s == s[..|s| - 1] + [s[|s| - 1]];
            assert x in t[..|t| - 1];
          }
        }
      } else {
        SubsequenceElements(s, t[..|t| - 1]);
        forall x | x in s ensures x in t {
          assert x in t[..|t| - 1];
        }
      }
    }
  }

  /** Deleting from the end of the longer sequence keeps a subsequence. */
  lemma {:induction false} SubsequenceOfPrefix<T>(s: seq<T>, t: seq<T>, k: nat)
    requires k <= |t|
    requires IsSubsequence(s, t[..k])
    ensures IsSubsequence(s, t)
    decreases |t| - k
  {
    if k < |t| {
      assert t[..k + 1][..k] == t[..k];
      assert IsSubsequence(s, t[..k + 1]);
      SubsequenceOfPrefix(s, t, k + 1);
    } else {
      assert t[..k] == t;
    }
  }

  /** A subsequence of a prefix is a subsequence of every longer prefix. */
  lemma SubsequenceWiden<T>(s: seq<T>, t: seq<T>, k: nat, n: nat)
    requires k <= n <= |t| && IsSubsequence(s, t[..k])
    ensures IsSubsequence(s, t[..n])
  {
    assert t[..n][..k] == t[..k];
    SubsequenceOfPrefix(s, t[..n], k);
  }

  /** ... and stays one when the next element of the longer prefix is appended. */
  lemma SubsequenceWidenSnoc<T>(s: seq<T>, t: seq<T>, k: nat, n: nat)
    requires k <= n < |t| && IsSubsequence(s, t[..k])
    ensures IsSubsequence(s + [t[n]], t[..n + 1])
  {
    SubsequenceWiden(s, t, k, n);
    SubsequenceSnoc(s, t[..n], t[n]);
    assert t[..n] + [t[n]] == t[..n + 1];
  }

  lemma SubsequenceEmpty<T>(t: seq<T>)
    ensures IsSubsequence([], t)
  {
  }

  /** Appending a common last element keeps a subsequence. */
  lemma SubsequenceSnoc<T>(s: seq<T>, t: seq<T>, x: T)
    requires IsSubsequence(s, t)
    ensures IsSubsequence(s + [x], t + [x])
  {
    assert (s + [x])[..|s|] == s;
    assert (t + [x])[..|t|] == t;
  }

  lemma {:induction false} SubsequenceReflexive<T>(s: seq<T>)
    ensures IsSubsequence(s, s)
    decreases |s|
  {
    if s != [] {
      SubsequenceReflexive(s[..|s| - 1]);
    }
  }

  /** Python's `s[::-1]`. */
  function Reverse<T>(s: seq<T>): (r: seq<T>)
    ensures |r| == |s|
    ensures forall i :: 0 <= i < |s| ==> r[i] == s[|s| - 1 - i]
  {
    if s == [] then [] else [s[|s| - 1]] + Reverse(s[..|s| - 1])
  }

  // ---------------------------------------------------------------------------
  // Characters

  /** Python's `str.isspace` on one ASCII character: space, tab, line feed,
      vertical tab, form feed, carriage return and the separators 0x1c-0x1f. */
  predicate IsSpace(c: char) {
    c == ' ' || (9 <= c as int <= 13) || (28 <= c as int <= 31)
  }

  predicate IsLowerLetter(c: char) {
    'a' <= c <= 'z'
  }

  /** Python's `str.lower` on one character, ASCII case folding only. */
  function LowerChar(c: char): (r: char)
    ensures 'A' <= c <= 'Z' ==> IsLowerLetter(r) && r as int == c as int + 32
    ensures !('A' <= c <= 'Z') ==> r == c
  {
    if 'A' <= c <= 'Z' then (c as int + 32) as char else c
  }

  function Lower(s: string): (r: string)
    ensures |r| == |s|
    ensures forall i :: 0 <= i < |s| ==> r[i] == LowerChar(s[i])
  {
    seq(|s|, i requires 0 <= i < |s| => LowerChar(s[i]))
  }

  // ---------------------------------------------------------------------------
  // str.strip

  function StripLeft(s: string): (r: string)
    ensures |r| <= |s| && r == s[|s| - |r|..]
    ensures forall i :: 0 <= i < |s| - |r| ==> IsSpace(s[i])
    ensures r != [] ==> !IsSpace(r[0])
  {
    if s != [] && IsSpace(s[0]) then
      var r := StripLeft(s[1..]);
      assert r == s[|s| - |r|..];
      assert forall i :: 1 <= i < |s| ==> s[i] == s[1..][i - 1];
      r
    else s
  }

  function StripRight(s: string): (r: string)
    ensures |r| <= |s| && r == s[..|r|]
    ensures forall i :: |r| <= i < |s| ==> IsSpace(s[i])
    ensures r != [] ==> !IsSpace(r[|r| - 1])
  {
    if s != [] && IsSpace(s[|s| - 1]) then StripRight(s[..|s| - 1]) else s
  }

  /** Python's `str.strip()`: neither starts nor ends with whitespace. */
  function Strip(s: string): (r: string)
    ensures r != [] ==> !IsSpace(r[0]) && !IsSpace(r[|r| - 1])
  {
    var l := StripLeft(s);
    var r := StripRight(l);
    assert r != [] ==> r[0] == l[0];
    r
  }

  /** Where the stripped text starts inside the original. */
  function StripStart(s: string): (lo: nat)
    ensures lo <= |s|
  {
    |s| - |StripLeft(s)|
  }

  /** `str.strip()` keeps a contiguous part of the text... */
  lemma StripSlice(s: string)
    ensures StripStart(s) + |Strip(s)| <= |s|
    ensures Strip(s) == s[StripStart(s)..StripStart(s) + |Strip(s)|]
  {
    var l := StripLeft(s);
    var r := StripRight(l);
    assert Strip(s) == r && l == s[|s| - |l|..] && r == l[..|r|];
    SliceOfSlice(s, |s| - |l|, |r|);
  }

  lemma SliceOfSlice<T>(s: seq<T>, lo: nat, n: nat)
    requires lo + n <= |s|
    ensures s[lo..][..n] == s[lo..lo + n]
  {
  }

  /** ...and what it cuts away on either side is whitespace. */
  lemma StripCutsSpace(s: string)
    ensures forall i :: 0 <= i < StripStart(s) ==> IsSpace(s[i])
    ensures forall i :: StripStart(s) + |Strip(s)| <= i < |s| ==> IsSpace(s[i])
  {
    var l := StripLeft(s);
    var r := StripRight(l);
    var lo := |s| - |l|;
    assert l == s[lo..];
    forall i | lo + |r| <= i < |s|
      ensures IsSpace(s[i])
    {
      assert s[i] == l[i - lo];
    }
  }

  /** The stripped text is empty exactly when the text is all whitespace. */
  lemma StripEmpty(s: string)
    ensures Strip(s) == [] <==> forall i :: 0 <= i < |s| ==> IsSpace(s[i])
  {
    var l := StripLeft(s);
    var lo := |s| - |l|;
    if forall i :: 0 <= i < |s| ==> IsSpace(s[i]) {
      assert l == [];
    } else {
      var j :| 0 <= j < |s| && !IsSpace(s[j]);
      assert lo <= j;
      assert l[j - lo] == s[j];
      assert Strip(s) != [];
    }
  }

  // ---------------------------------------------------------------------------
  // str.split(sep) and its inverse sep.join

  /** Python's `s.split(sep)` for a one-character separator: the pieces between
      separators, empty pieces included. */
  function Split(s: string, sep: char): (r: seq<string>)
    ensures |r| >= 1
    ensures forall k :: 0 <= k < |r| ==> sep !in r[k]
  {
    if s == [] then [[]]
    else
      var rest := Split(s[1..], sep);
      if s[0] == sep then [[]] + rest else [[s[0]] + rest[0]] + rest[1..]
  }

  /** Python's `sep.join(parts)`. */
  function Join(parts: seq<string>, sep: char): string
  {
    if parts == [] then []
    else if |parts| == 1 then parts[0]
    else parts[0] + [sep] + Join(parts[1..], sep)
  }

  /** Splitting and joining again gives the text back. */
  lemma {:induction false} JoinSplit(s: string, sep: char)
    ensures Join(Split(s, sep), sep) == s
  {
    if s != [] {
      var rest := Split(s[1..], sep);
      JoinSplit(s[1..], sep);
      if s[0] == sep {
        assert Split(s, sep) == [[]] + rest;
        assert ([[]] + rest)[1..] == rest;
      } else {
        var parts := [[s[0]] + rest[0]] + rest[1..];
        if |rest| == 1 {
          assert Join(parts, sep) == [s[0]] + rest[0];
        } else {
          assert parts[1..] == rest[1..];
          assert Join(rest, sep) == rest[0] + [sep] + Join(rest[1..], sep);
        }
      }
    }
  }

  // ---------------------------------------------------------------------------
  // str.split() with no separator

  /** Length of the leading run of non-whitespace characters. */
  function WordLength(s: string): (n: nat)
    ensures n <= |s|
    ensures forall i :: 0 <= i < n ==> !IsSpace(s[i])
    ensures n < |s| ==> IsSpace(s[n])
  {
    if s == [] || IsSpace(s[0]) then 0 else 1 + WordLength(s[1..])
  }

  /** Python's `s.split()`: the maximal runs of non-whitespace, in order. */
  function Words(s: string): (r: seq<string>)
    ensures forall k :: 0 <= k < |r| ==> r[k] != [] && forall c :: c in r[k] ==> !IsSpace(c)
    decreases |s|
  {
    if s == [] then []
    else if IsSpace(s[0]) then Words(s[1..])
    else
      var n := WordLength(s);
      [s[..n]] + Words(s[n..])
  }

  /** The text with its whitespace deleted. */
  function NonSpace(s: string): (r: string)
    ensures |r| <= |s|
  {
    if s == [] then [] else (if IsSpace(s[0]) then [] else [s[0]]) + NonSpace(s[1..])
  }

  function Concat(parts: seq<string>): string
  {
    if parts == [] then [] else parts[0] + Concat(parts[1..])
  }

  lemma {:induction false} NonSpaceAppend(s: string, t: string)
    ensures NonSpace(s + t) == NonSpace(s) + NonSpace(t)
  {
    if s == [] {
      assert s + t == t;
    } else {
      var head := if IsSpace(s[0]) then [] else [s[0]];
      calc {
        NonSpace(s + t);
      == { assert (s + t)[0] == s[0] && (s + t)[1..] == s[1..] + t; }
        head + NonSpace(s[1..] + t);
      == { NonSpaceAppend(s[1..], t); }
        head + (NonSpace(s[1..]) + NonSpace(t));
      == { ConcatAssociative(head, NonSpace(s[1..]), NonSpace(t)); }
        NonSpace(s) + NonSpace(t);
      }
    }
  }

  lemma {:induction false} NonSpaceOfWord(s: string)
    requires forall i :: 0 <= i < |s| ==> !IsSpace(s[i])
    ensures NonSpace(s) == s
  {
    if s != [] {
      NonSpaceOfWord(s[1..]);
    }
  }

  /** Splitting on whitespace loses nothing but the whitespace: the words,
      glued together, are the text's non-whitespace characters in order. */
  lemma {:induction false} WordsConcat(s: string)
    ensures Concat(Words(s)) == NonSpace(s)
    decreases |s|
  {
    if s != [] {
      if IsSpace(s[0]) {
        WordsConcat(s[1..]);
      } else {
        var n := WordLength(s);
        WordsConcat(s[n..]);
        assert s == s[..n] + s[n..];
        NonSpaceAppend(s[..n], s[n..]);
        NonSpaceOfWord(s[..n]);
        assert ([s[..n]] + Words(s[n..]))[1..] == Words(s[n..]);
      }
    }
  }

  /** Every character of every word is a character of the text. */
  lemma {:induction false} WordsChars(s: string, k: nat, c: char)
    requires k < |Words(s)| && c in Words(s)[k]
    ensures c in s
    decreases |s|
  {
    if IsSpace(s[0]) {
      WordsChars(s[1..], k, c);
    } else {
      var n := WordLength(s);
      if k > 0 {
        WordsChars(s[n..], k - 1, c);
      }
    }
  }

  // ---------------------------------------------------------------------------
  // String comparison

  /** Python's `a < b` on strings: lexicographic by code point. */
  predicate StrLess(a: string, b: string)
    decreases |a|
  {
    b != [] && (a == [] || a[0] < b[0] || (a[0] == b[0] && StrLess(a[1..], b[1..])))
  }

  lemma {:induction false} StrLessIrreflexive(a: string)
    ensures !StrLess(a, a)
    decreases |a|
  {
    if a != [] {
      StrLessIrreflexive(a[1..]);
    }
  }

  lemma {:induction false} StrLessTransitive(a: string, b: string, c: string)
    requires StrLess(a, b) && StrLess(b, c)
    ensures StrLess(a, c)
    decreases |a|
  {
    if a != [] && a[0] == b[0] && b[0] == c[0] {
      StrLessTransitive(a[1..], b[1..], c[1..]);
    }
  }

  lemma {:induction false} StrLessTotal(a: string, b: string)
    requires a != b
    ensures StrLess(a, b) || StrLess(b, a)
    decreases |a|
  {
    if a != [] && b != [] && a[0] == b[0] {
      assert a == [a[0]] + a[1..] && b == [b[0]] + b[1..];
      StrLessTotal(a[1..], b[1..]);
    }
  }
}
