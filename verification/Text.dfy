/**
 * The Python `str` operations the core relies on, as total functions over
 * `seq<char>`: whitespace (`str.isspace` and the regex class `\s`), `strip`,
 * `split` and `join` on one separator, literal search (`in`, and `re.search`
 * of an escaped literal), `replace`, and slicing with Python's index rules.
 */
module Text {
  import opened Wrappers

  /**
   * The code points `str.isspace()` accepts, as ten inclusive ranges; the
   * regex class `\s` on `str` patterns uses the same table.
   */
  function SpaceRange(k: nat): (char, char) {
    if k == 0 then ('\U{9}', '\U{D}')
    else if k == 1 then ('\U{1C}', ' ')
    else if k == 2 then ('\U{85}', '\U{85}')
    else if k == 3 then ('\U{A0}', '\U{A0}')
    else if k == 4 then ('\U{1680}', '\U{1680}')
    else if k == 5 then ('\U{2000}', '\U{200A}')
    else if k == 6 then ('\U{2028}', '\U{2029}')
    else if k == 7 then ('\U{202F}', '\U{202F}')
    else if k == 8 then ('\U{205F}', '\U{205F}')
    else ('\U{3000}', '\U{3000}')
  }

  /** `c` lies in one of the ranges `k` to 9. */
  predicate SpaceFrom(c: char, k: nat)
    decreases 10 - k
  {
    k < 10 && ((SpaceRange(k).0 <= c <= SpaceRange(k).1) || SpaceFrom(c, k + 1))
  }

  /** `c.isspace()`. */
  predicate IsSpace(c: char) {
    SpaceFrom(c, 0)
  }

  /** `s.lstrip()`: drops the longest all-whitespace prefix. */
  function TrimStart(s: string): (r: string)
    ensures |r| <= |s| && r == s[|s| - |r|..]
    ensures r == [] || !IsSpace(r[0])
  {
    if s != [] && IsSpace(s[0]) then TrimStart(s[1..]) else s
  }

  /** What `lstrip` drops is whitespace. */
  lemma {:induction false} TrimStartDropsSpace(s: string)
    ensures forall i :: 0 <= i < |s| - |TrimStart(s)| ==> IsSpace(s[i])
  {
    if s != [] && IsSpace(s[0]) {
      var t := s[1..];
      TrimStartDropsSpace(t);
      assert TrimStart(s) == TrimStart(t);
      forall i | 1 <= i < |s| - |TrimStart(s)| ensures IsSpace(s[i]) {
        assert s[i] == t[i - 1];
      }
    }
  }

  /** `s.rstrip()`: drops the longest all-whitespace suffix. */
  function TrimEnd(s: string): (r: string)
    ensures |r| <= |s| && r == s[..|r|]
    ensures r == [] || !IsSpace(r[|r| - 1])
  {
    if s != [] && IsSpace(s[|s| - 1]) then TrimEnd(s[..|s| - 1]) else s
  }

  /** What `rstrip` drops is whitespace. */
  lemma {:induction false} TrimEndDropsSpace(s: string)
    ensures forall i :: |TrimEnd(s)| <= i < |s| ==> IsSpace(s[i])
  {
    if s != [] && IsSpace(s[|s| - 1]) {
      var t := s[..|s| - 1];
      TrimEndDropsSpace(t);
      assert TrimEnd(s) == TrimEnd(t);
      forall i | |TrimEnd(s)| <= i < |s| - 1 ensures IsSpace(s[i]) {
        assert s[i] == t[i];
      }
    }
  }

  /** `r` is `s[i..i + |r|]` and everything of `s` outside that window is whitespace. */
  predicate StripsTo(s: string, i: int, r: string) {
    && 0 <= i && i + |r| <= |s| && r == s[i..i + |r|]
    && (forall k :: 0 <= k < i ==> IsSpace(s[k]))
    && (forall k :: i + |r| <= k < |s| ==> IsSpace(s[k]))
  }

  /** `s.strip()`: `lstrip` then `rstrip` (see `StripTrims`). */
  function Strip(s: string): (r: string)
    ensures |r| <= |s|
    ensures r == [] || (!IsSpace(r[0]) && !IsSpace(r[|r| - 1]))
  {
    if s != [] && IsSpace(s[0]) then Strip(s[1..]) else TrimEnd(s)
  }

  lemma {:induction false} StripTrims(s: string)
    ensures Strip(s) == TrimEnd(TrimStart(s))
  {
    if s != [] && IsSpace(s[0]) {
      StripTrims(s[1..]);
    }
  }

  /** The strip of `s` is a contiguous piece of it, everything outside whitespace. */
  lemma {:induction false} StripWindow(s: string) returns (i: nat)
    ensures StripsTo(s, i, Strip(s))
  {
    if s != [] && IsSpace(s[0]) {
      var j := StripWindow(s[1..]);
      StripsShift(s, j, Strip(s[1..]));
      i := j + 1;
    } else {
      TrimEndDropsSpace(s);
      i := 0;
      WindowAtStart(s, TrimEnd(s));
    }
  }

  /** A window of `s[1..]` is a window of `s` one further on, when `s[0]` is whitespace. */
  lemma StripsShift(s: string, j: nat, r: string)
    requires s != [] && IsSpace(s[0]) && StripsTo(s[1..], j, r)
    ensures StripsTo(s, j + 1, r)
  {
    var t := s[1..];
    assert r == s[j + 1..j + 1 + |r|] by {
      assert forall k :: 0 <= k < |r| ==> r[k] == t[j + k] == s[j + 1 + k];
    }
    forall k | 0 <= k < j + 1 ensures IsSpace(s[k]) {
      if k > 0 {
        assert s[k] == t[k - 1];
      }
    }
    forall k | j + 1 + |r| <= k < |s| ensures IsSpace(s[k]) {
      assert s[k] == t[k - 1];
    }
  }

  /** A prefix `r` of `s` after which `s` is all whitespace is a window at 0. */
  lemma WindowAtStart(s: string, r: string)
    requires |r| <= |s| && r == s[..|r|]
    requires forall k :: |r| <= k < |s| ==> IsSpace(s[k])
    ensures StripsTo(s, 0, r)
  {
  }

  /** A string with nothing to strip at either end. */
  predicate IsStripped(s: string) {
    s == [] || (!IsSpace(s[0]) && !IsSpace(s[|s| - 1]))
  }

  lemma {:induction false} StripStripped(s: string)
    requires IsStripped(s)
    ensures Strip(s) == s
  {
  }

  lemma {:induction false} StripIdempotent(s: string)
    ensures Strip(Strip(s)) == Strip(s)
  {
    StripStripped(Strip(s));
  }

  /** Strip of an all-whitespace string is empty, and conversely. */
  lemma {:induction false} StripEmptyIffBlank(s: string)
    ensures Strip(s) == [] <==> forall k :: 0 <= k < |s| ==> IsSpace(s[k])
  {
    var i := StripWindow(s);
    if Strip(s) != [] {
      assert Strip(s)[0] == s[i];
    }
  }

  /** `s.split(sep)` with a one-character separator: never empty, no piece holds `sep`. */
  function Split(s: string, sep: char): (r: seq<string>)
    ensures |r| >= 1
  {
    if s == [] then [[]]
    else if s[0] == sep then [[]] + Split(s[1..], sep)
    else
      var rest := Split(s[1..], sep);
      [[s[0]] + rest[0]] + rest[1..]
  }

  /** `sep.join(xs)`. */
  function Join(xs: seq<string>, sep: string): string {
    if |xs| == 0 then []
    else if |xs| == 1 then xs[0]
    else xs[0] + sep + Join(xs[1..], sep)
  }

  lemma {:induction false} JoinSplit(s: string, sep: char)
    ensures Join(Split(s, sep), [sep]) == s
  {
    if s == [] {
    } else if s[0] == sep {
      JoinSplit(s[1..], sep);
      assert Split(s, sep)[1..] == Split(s[1..], sep);
    } else {
      JoinSplit(s[1..], sep);
      var rest := Split(s[1..], sep);
      if |rest| == 1 {
        assert Split(s, sep) == [[s[0]] + rest[0]];
      } else {
        assert Split(s, sep)[1..] == rest[1..];
        assert Join(rest, [sep]) == rest[0] + [sep] + Join(rest[1..], [sep]);
      }
    }
  }

  /** No piece of `xs` holds `sep`. */
  predicate NoSep(xs: seq<string>, sep: char) {
    forall i :: 0 <= i < |xs| ==> sep !in xs[i]
  }

  lemma {:induction false} SplitJoin(xs: seq<string>, sep: char)
    requires |xs| >= 1 && NoSep(xs, sep)
    ensures Split(Join(xs, [sep]), sep) == xs
  {
    if |xs| == 1 {
      SplitNoSep(xs[0], sep);
    } else {
      assert NoSep(xs[1..], sep) by {
        assert forall i :: 0 <= i < |xs[1..]| ==> xs[1..][i] == xs[i + 1];
      }
      SplitJoin(xs[1..], sep);
      SplitAppend(xs[0], Join(xs[1..], [sep]), sep);
      assert Join(xs, [sep]) == xs[0] + [sep] + Join(xs[1..], [sep]);
      assert [xs[0]] + xs[1..] == xs;
    }
  }

  lemma {:induction false} SplitNoSep(s: string, sep: char)
    requires sep !in s
    ensures Split(s, sep) == [s]
  {
    if s != [] {
      SplitNoSep(s[1..], sep);
      assert [s[0]] + s[1..] == s;
    }
  }

  /** Splitting `a + sep + b` where `a` holds no `sep`. */
  lemma {:induction false} SplitAppend(a: string, b: string, sep: char)
    requires sep !in a
    ensures Split(a + [sep] + b, sep) == [a] + Split(b, sep)
  {
    if a == [] {
      assert a + [sep] + b == [sep] + b;
      assert ([sep] + b)[1..] == b;
    } else {
      SplitAppend(a[1..], b, sep);
      assert (a + [sep] + b)[1..] == a[1..] + [sep] + b;
      assert [a[0]] + a[1..] == a;
    }
  }

  /** No piece of a split holds the separator. */
  lemma {:induction false} SplitPieces(s: string, sep: char)
    ensures NoSep(Split(s, sep), sep)
  {
    if s != [] {
      SplitPieces(s[1..], sep);
    }
  }

  /** Joining two non-empty lists: the joins of each, around one separator. */
  lemma {:induction false} JoinAppend(xs: seq<string>, ys: seq<string>, sep: string)
    requires |xs| >= 1 && |ys| >= 1
    ensures Join(xs + ys, sep) == Join(xs, sep) + sep + Join(ys, sep)
  {
    if |xs| > 1 {
      JoinAppend(xs[1..], ys, sep);
      assert (xs + ys)[1..] == xs[1..] + ys;
    }
  }

  lemma {:induction false} NoSepAppend(xs: seq<string>, ys: seq<string>, sep: char)
    requires NoSep(xs, sep) && NoSep(ys, sep)
    ensures NoSep(xs + ys, sep)
  {
    forall i | 0 <= i < |xs + ys| ensures sep !in (xs + ys)[i] {
      if i < |xs| {
        assert (xs + ys)[i] == xs[i];
      } else {
        assert (xs + ys)[i] == ys[i - |xs|];
      }
    }
  }

  /** Splitting `a + sep + b`: the pieces of `a`, then those of `b`. */
  lemma {:induction false} SplitConcat(a: string, b: string, sep: char)
    ensures Split(a + [sep] + b, sep) == Split(a, sep) + Split(b, sep)
  {
    var xs, ys := Split(a, sep), Split(b, sep);
    JoinSplit(a, sep);
    JoinSplit(b, sep);
    SplitPieces(a, sep);
    SplitPieces(b, sep);
    JoinAppend(xs, ys, [sep]);
    NoSepAppend(xs, ys, sep);
    SplitJoin(xs + ys, sep);
  }

  /** Stripping adds no character. */
  lemma {:induction false} StripNoChar(s: string, c: char)
    requires c !in s
    ensures c !in Strip(s)
  {
    var i := StripWindow(s);
  }

  /** `needle` occurs in `hay` at offset `i`. */
  predicate OccursAt(needle: string, hay: string, i: int) {
    0 <= i && i + |needle| <= |hay| && hay[i..i + |needle|] == needle
  }

  lemma {:induction false} OccursAtZero(needle: string, hay: string)
    ensures OccursAt(needle, hay, 0) <==> needle <= hay
  {
    if needle <= hay {
      assert hay[..|needle|] == needle;
    }
  }

  lemma {:induction false} OccursShift(needle: string, hay: string, j: int)
    requires hay != [] && 1 <= j
    ensures OccursAt(needle, hay, j) <==> OccursAt(needle, hay[1..], j - 1)
  {
    if j + |needle| <= |hay| {
      assert hay[1..][j - 1..j - 1 + |needle|] == hay[j..j + |needle|];
    }
  }

  /**
   * The leftmost occurrence of a literal: `re.search(re.escape(needle), hay)`
   * and, through `.Some?`, Python's `needle in hay`.
   */
  function Find(needle: string, hay: string): (r: Option<nat>)
    ensures r.Some? ==> OccursAt(needle, hay, r.value)
    ensures r.Some? ==> forall j :: 0 <= j < r.value ==> !OccursAt(needle, hay, j)
    ensures r.None? ==> forall j :: !OccursAt(needle, hay, j)
  {
    OccursAtZero(needle, hay);
    if needle <= hay then Some(0)
    else if hay == [] then None
    else
      assert forall j :: 1 <= j ==> (OccursAt(needle, hay, j) <==> OccursAt(needle, hay[1..], j - 1)) by {
        forall j | 1 <= j
          ensures OccursAt(needle, hay, j) <==> OccursAt(needle, hay[1..], j - 1)
        {
          OccursShift(needle, hay, j);
        }
      }
      match Find(needle, hay[1..])
      case None => None
      case Some(k) => Some(k + 1)
  }

  /** Python's `needle in hay` for strings. */
  predicate Contains(needle: string, hay: string) {
    Find(needle, hay).Some?
  }

  /** `s.replace(pat, rep)`: left to right, non-overlapping. */
  function Replace(s: string, pat: string, rep: string): string
    requires pat != []
  {
    if s == [] then []
    else if pat <= s then rep + Replace(s[|pat|..], pat, rep)
    else [s[0]] + Replace(s[1..], pat, rep)
  }

  /** A Python slice index: negatives count from the end, then clamped to `[0, n]`. */
  function SliceIndex(i: int, n: nat): (r: nat)
    ensures r <= n
  {
    if i < 0 then (if n + i < 0 then 0 else n + i)
    else if i > n then n
    else i
  }

  /**
   * The laws of a slice index: in range it is itself, a negative index `i - n`
   * names the same place as `i`, everything past the end is the end, everything
   * before `-n` is the start, and the index is monotone on each side of 0.
   */
  lemma SliceIndexLaws(i: int, j: int, n: nat)
    ensures 0 <= i <= n ==> SliceIndex(i, n) == i
    ensures 0 <= i < n ==> SliceIndex(i - n, n) == SliceIndex(i, n)
    ensures i >= n ==> SliceIndex(i, n) == n
    ensures i + n <= 0 ==> SliceIndex(i, n) == 0
    ensures (0 <= i <= j || i <= j < 0) ==> SliceIndex(i, n) <= SliceIndex(j, n)
  {
  }

  lemma AppendAssoc<T>(a: seq<T>, b: seq<T>, c: seq<T>)
    ensures a + (b + c) == (a + b) + c
  {
  }

  /** `s[a:b]` with Python's rules for negative and out-of-range bounds. */
  function PySlice(s: string, a: int, b: int): (r: string)
    ensures |r| == if SliceIndex(a, |s|) < SliceIndex(b, |s|) then SliceIndex(b, |s|) - SliceIndex(a, |s|) else 0
    ensures forall k :: 0 <= k < |r| ==> r[k] == s[SliceIndex(a, |s|) + k]
    ensures 0 <= a <= b <= |s| ==> r == s[a..b]
  {
    var lo, hi := SliceIndex(a, |s|), SliceIndex(b, |s|);
    if lo < hi then s[lo..hi] else []
  }

  /** Adjacent in-range slices concatenate to the slice over both. */
  lemma {:induction false} PySliceConcat(s: string, a: int, b: int, c: int)
    requires 0 <= a <= b <= c <= |s|
    ensures PySlice(s, a, b) + PySlice(s, b, c) == PySlice(s, a, c)
  {
    assert s[a..c] == s[a..b] + s[b..c];
  }

  /**
   * A negative start names the same place as the start `|s|` higher, a stop
   * past the end is the end, and a start at or past the end gives nothing.
   */
  lemma {:induction false} PySliceBounds(s: string, a: int, b: int)
    ensures 0 <= a < |s| ==> PySlice(s, a - |s|, b) == PySlice(s, a, b)
    ensures b >= |s| ==> PySlice(s, a, b) == PySlice(s, a, |s|)
    ensures a >= |s| ==> PySlice(s, a, b) == []
  {
    SliceIndexLaws(a, b, |s|);
    SliceIndexLaws(b, a, |s|);
    SliceIndexLaws(|s|, a, |s|);
  }
}
