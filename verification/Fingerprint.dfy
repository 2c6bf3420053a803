/**
 * Document fingerprinting of the post-processing script: a brief is reduced
 * to short signature fragments cut on a fixed grid near its start, and a
 * question is attributed to the dossier owning the longest fragment it
 * contains.
 */
module Fingerprint {
  import opened Wrappers
  import opened Text

  // ---------------------------------------------------------------------------
  // Whitespace collapsing: re.sub(r'\s+', ' ', s)
  // ---------------------------------------------------------------------------

  /** Every whitespace character is a plain space and no two of them are adjacent. */
  predicate Collapsed(r: string) {
    forall i :: 0 <= i < |r| && IsSpace(r[i]) ==> r[i] == ' ' && (i + 1 < |r| ==> !IsSpace(r[i + 1]))
  }

  /** Each maximal run of whitespace becomes one space. */
  function Collapse(s: string): (r: string)
    ensures r == [] <==> s == []
    ensures r != [] ==> (IsSpace(r[0]) <==> IsSpace(s[0]))
  {
    if s == [] then []
    else if IsSpace(s[0]) then [' '] + Collapse(TrimStart(s[1..]))
    else [s[0]] + Collapse(s[1..])
  }

  /** Dropping leading whitespace reaches into `t` only when `x` is all whitespace. */
  lemma {:induction false} TrimStartAppend(x: string, t: string)
    requires x != [] && !IsSpace(x[|x| - 1])
    ensures TrimStart(x + t) == TrimStart(x) + t
    decreases |x|
  {
    assert (x + t)[0] == x[0];
    if IsSpace(x[0]) {
      assert (x + t)[1..] == x[1..] + t;
      TrimStartAppend(x[1..], t);
    }
  }

  /** Leading whitespace followed by a non-space (or nothing) is dropped entirely. */
  lemma {:induction false} TrimStartSpaces(w: string, b: string)
    requires forall k :: 0 <= k < |w| ==> IsSpace(w[k])
    requires b == [] || !IsSpace(b[0])
    ensures TrimStart(w + b) == b
    decreases |w|
  {
    if w == [] {
      assert w + b == b;
    } else {
      assert (w + b)[0] == w[0];
      assert (w + b)[1..] == w[1..] + b;
      TrimStartSpaces(w[1..], b);
    }
  }

  /** A text ending in a non-space keeps that character through `lstrip`. */
  lemma {:induction false} TrimStartKeepsLast(x: string)
    requires x != [] && !IsSpace(x[|x| - 1])
    ensures TrimStart(x) != [] && TrimStart(x)[|TrimStart(x)| - 1] == x[|x| - 1]
  {
    TrimStartDropsSpace(x);
  }

  /** One step of `Collapse` on a text opening with `c`. */
  lemma CollapseCons(c: char, s: string)
    ensures IsSpace(c) ==> Collapse([c] + s) == [' '] + Collapse(TrimStart(s))
    ensures !IsSpace(c) ==> Collapse([c] + s) == [c] + Collapse(s)
  {
    assert ([c] + s)[0] == c;
    assert ([c] + s)[1..] == s;
  }

  /** Collapsing splits at a point where no whitespace run is cut. */
  lemma {:induction false} CollapseAppend(a: string, t: string)
    requires a == [] || !IsSpace(a[|a| - 1])
    ensures Collapse(a + t) == Collapse(a) + Collapse(t)
    decreases |a|, 1
  {
    if a == [] {
      assert a + t == t;
    } else {
      var c, r := a[0], a[1..];
      assert a == [c] + r;
      AppendAssoc([c], r, t);
      if IsSpace(c) {
        CollapseAppendSpace(c, r, t);
      } else {
        CollapseAppend(r, t);
        CollapseCons(c, r);
        CollapseCons(c, r + t);
        AppendAssoc([c], Collapse(r), Collapse(t));
      }
    }
  }

  /** `CollapseAppend` when `a` opens with the whitespace character `c`. */
  lemma {:induction false} CollapseAppendSpace(c: char, r: string, t: string)
    requires IsSpace(c) && r != [] && !IsSpace(r[|r| - 1])
    ensures Collapse([c] + (r + t)) == Collapse([c] + r) + Collapse(t)
    decreases |r| + 1, 0
  {
    TrimStartAppend(r, t);
    TrimStartKeepsLast(r);
    var y := TrimStart(r);
    CollapseAppend(y, t);
    CollapseCons(c, r);
    CollapseCons(c, r + t);
    AppendAssoc([' '], Collapse(y), Collapse(t));
  }

  /** A whitespace run followed by a non-space (or nothing) collapses to one space. */
  lemma {:induction false} CollapseRunHead(w: string, b: string)
    requires w != [] && forall k :: 0 <= k < |w| ==> IsSpace(w[k])
    requires b == [] || !IsSpace(b[0])
    ensures Collapse(w + b) == [' '] + Collapse(b)
  {
    TrimStartSpaces(w[1..], b);
    assert w == [w[0]] + w[1..];
    AppendAssoc([w[0]], w[1..], b);
    CollapseCons(w[0], w[1..] + b);
  }

  /**
   * The run rule of `re.sub(r'\s+', ' ', s)`: a maximal whitespace run `w`
   * between `a` and `b` becomes exactly one space, in place.
   */
  lemma {:induction false} CollapseRun(a: string, w: string, b: string)
    requires a == [] || !IsSpace(a[|a| - 1])
    requires w != [] && forall k :: 0 <= k < |w| ==> IsSpace(w[k])
    requires b == [] || !IsSpace(b[0])
    ensures Collapse(a + w + b) == Collapse(a) + " " + Collapse(b)
  {
    AppendAssoc(a, w, b);
    CollapseAppend(a, w + b);
    CollapseRunHead(w, b);
    AppendAssoc(Collapse(a), [' '], Collapse(b));
  }

  /** What collapsing produces: no whitespace but single spaces, and never longer. */
  lemma {:induction false} CollapseShape(s: string)
    ensures Collapsed(Collapse(s))
    ensures |Collapse(s)| <= |s|
    decreases |s|
  {
    if s != [] {
      var r := Collapse(s);
      if IsSpace(s[0]) {
        var rest := TrimStart(s[1..]);
        CollapseShape(rest);
        var t := Collapse(rest);
        assert r == [' '] + t;
        assert t != [] ==> !IsSpace(t[0]);
        forall i | 0 <= i < |r| && IsSpace(r[i])
          ensures r[i] == ' ' && (i + 1 < |r| ==> !IsSpace(r[i + 1]))
        {
          if i > 0 {
            assert r[i] == t[i - 1];
          }
        }
      } else {
        CollapseShape(s[1..]);
        var t := Collapse(s[1..]);
        assert r == [s[0]] + t;
        forall i | 0 <= i < |r| && IsSpace(r[i])
          ensures r[i] == ' ' && (i + 1 < |r| ==> !IsSpace(r[i + 1]))
        {
          assert i > 0;
          assert r[i] == t[i - 1];
        }
      }
    }
  }

  /** A collapsed string is left as it is. */
  lemma {:induction false} CollapseFixed(r: string)
    requires Collapsed(r)
    ensures Collapse(r) == r
    decreases |r|
  {
    if r != [] {
      var t := r[1..];
      CollapsedTail(r);
      CollapseFixed(t);
      if IsSpace(r[0]) {
        assert t == [] || !IsSpace(t[0]);
        assert TrimStart(t) == t;
        assert Collapse(r) == [' '] + Collapse(t);
      } else {
        assert Collapse(r) == [r[0]] + Collapse(t);
      }
      assert [r[0]] + t == r;
    }
  }

  /** Dropping the first character keeps a string collapsed. */
  lemma CollapsedTail(r: string)
    requires r != [] && Collapsed(r)
    ensures Collapsed(r[1..])
  {
    var t := r[1..];
    forall i | 0 <= i < |t| && IsSpace(t[i])
      ensures t[i] == ' ' && (i + 1 < |t| ==> !IsSpace(t[i + 1]))
    {
      assert t[i] == r[i + 1];
      assert i + 1 < |t| ==> t[i + 1] == r[i + 2];
    }
  }

  lemma {:induction false} CollapseIdempotent(s: string)
    ensures Collapse(Collapse(s)) == Collapse(s)
  {
    CollapseShape(s);
    CollapseFixed(Collapse(s));
  }

  /** The characters that are not whitespace, in order. */
  function Visible(s: string): (r: string)
    ensures forall i :: 0 <= i < |r| ==> !IsSpace(r[i])
  {
    if s == [] then []
    else if IsSpace(s[0]) then Visible(s[1..])
    else [s[0]] + Visible(s[1..])
  }

  /** Dropping a whitespace prefix does not change the visible characters. */
  lemma {:induction false} VisibleTrimStart(s: string)
    ensures Visible(TrimStart(s)) == Visible(s)
  {
    if s != [] && IsSpace(s[0]) {
      VisibleTrimStart(s[1..]);
    }
  }

  /** Collapsing keeps every visible character, in order. */
  lemma {:induction false} CollapseVisible(s: string)
    ensures Visible(Collapse(s)) == Visible(s)
  {
    if s != [] {
      if IsSpace(s[0]) {
        var rest := TrimStart(s[1..]);
        CollapseVisible(rest);
        VisibleTrimStart(s[1..]);
        assert Collapse(s)[1..] == Collapse(rest);
      } else {
        CollapseVisible(s[1..]);
        assert Collapse(s)[1..] == Collapse(s[1..]);
      }
    }
  }

  // ---------------------------------------------------------------------------
  // Fragments
  // ---------------------------------------------------------------------------

  /** The class `[a-zA-ZÀ-ÿ0-9]`: ASCII letters and digits and the code points U+00C0 to U+00FF. */
  predicate IsWordChar(c: char) {
    ('a' <= c <= 'z') || ('A' <= c <= 'Z') || ('\U{C0}' <= c <= '\U{FF}') || ('0' <= c <= '9')
  }

  /** `len(re.sub(r'[^a-zA-ZÀ-ÿ0-9]', '', f[:i]))`: how many of the first `i` characters are in the class. */
  function WordCount(f: string, i: nat): (r: nat)
    requires i <= |f|
    ensures r <= i
  {
    if i == 0 then 0
    else WordCount(f, i - 1) + (if IsWordChar(f[i - 1]) then 1 else 0)
  }

  /** More than 40% of the fragment is in the class; `count > l * 0.4` for a whole count. */
  predicate Dense(f: string) {
    10 * WordCount(f, |f|) > 4 * |f|
  }

  /** The lengths of the short fragments, in the order they are tried. */
  const Lengths: seq<nat> := [30, 40, 50, 60, 80]

  function Min(a: int, b: int): int {
    if a <= b then a else b
  }

  /** The number of values in `range(0, m, 50)`. */
  function ShortRows(m: int): (r: nat)
    ensures m <= 50 * r
    ensures r == 0 || 50 * (r - 1) < m
  {
    if m <= 0 then 0 else 1 + ShortRows(m - 50)
  }

  /** The number of values in `range(0, m, 100)`. */
  function LongRows(m: int): (r: nat)
    ensures m <= 100 * r
    ensures r == 0 || 100 * (r - 1) < m
  {
    if m <= 0 then 0 else 1 + LongRows(m - 100)
  }

  /** A `range(0, m, 50)` loop that stopped has run `ShortRows(m)` times. */
  lemma ShortRowsExit(m: int, k: nat)
    requires m <= 50 * k && k <= ShortRows(m)
    ensures k == ShortRows(m)
  {
  }

  /** A `range(0, m, 100)` loop that stopped has run `LongRows(m)` times. */
  lemma LongRowsExit(m: int, k: nat)
    requires m <= 100 * k && k <= LongRows(m)
    ensures k == LongRows(m)
  {
  }

  /** The short candidates at one start: the lengths of `ls` that fit in `n`. */
  function Row(start: nat, n: nat, ls: seq<nat>): (r: seq<(nat, nat)>)
    ensures forall i :: 0 <= i < |r| ==> r[i].0 == start && r[i].1 in ls && start + r[i].1 <= n
  {
    if ls == [] then []
    else
      var l := ls[|ls| - 1];
      Row(start, n, ls[..|ls| - 1]) + (if start + l <= n then [(start, l)] else [])
  }

  /** The short candidates of the first `k` starts `0, 50, 100, ...`. */
  function ShortGrid(n: nat, k: nat): seq<(nat, nat)> {
    if k == 0 then [] else ShortGrid(n, k - 1) + Row(50 * (k - 1), n, Lengths)
  }

  /** The long candidates of the first `k` starts `0, 100, 200, ...`. */
  function LongGrid(longueur: nat, k: nat): seq<(nat, nat)> {
    if k == 0 then [] else LongGrid(longueur, k - 1) + [(100 * (k - 1), longueur)]
  }

  /** Every (start, length) pair tried on a cleaned text of length `n`, in the order tried. */
  function Candidates(n: nat, longueur: nat): seq<(nat, nat)> {
    ShortGrid(n, ShortRows(Min(500, n - 30))) + LongGrid(longueur, LongRows(Min(800, n - longueur)))
  }

  /** Candidate `p` of `c` as `c[s:s+l]` slices it: both ends clamped to the length. */
  function Slice(c: string, p: (nat, nat)): string {
    c[Min(p.0, |c|)..Min(p.0 + p.1, |c|)]
  }

  /** The candidates whose slice of `c` is dense, as slices. */
  function Keep(c: string, cs: seq<(nat, nat)>): seq<string> {
    if cs == [] then []
    else
      var f := Slice(c, cs[|cs| - 1]);
      Keep(c, cs[..|cs| - 1]) + (if Dense(f) then [f] else [])
  }

  /** The fragments of a text. */
  function Fragments(texte: string, longueur: nat): seq<string> {
    CleanFragments(Collapse(texte), longueur)
  }

  /** The fragments of an already cleaned text `c`. */
  function CleanFragments(c: string, longueur: nat): seq<string> {
    if |c| < longueur then (if |c| > 20 then [c] else [])
    else Keep(c, Candidates(|c|, longueur))
  }

  /** The grid in closed form: a short candidate or a long one. */
  predicate InGrid(n: nat, longueur: nat, s: nat, l: nat) {
    || (s % 50 == 0 && s < Min(500, n - 30) && l in Lengths && s + l <= n)
    || (s % 100 == 0 && s < Min(800, n - longueur) && l == longueur)
  }

  lemma {:induction false} RowMembers(start: nat, n: nat, ls: seq<nat>, s: nat, l: nat)
    ensures (s, l) in Row(start, n, ls) <==> s == start && l in ls && start + l <= n
  {
    if ls != [] {
      RowMembers(start, n, ls[..|ls| - 1], s, l);
      assert ls == ls[..|ls| - 1] + [ls[|ls| - 1]];
    }
  }

  lemma {:induction false} ShortGridMembers(n: nat, k: nat, s: nat, l: nat)
    ensures (s, l) in ShortGrid(n, k) <==> s % 50 == 0 && s < 50 * k && l in Lengths && s + l <= n
  {
    if k > 0 {
      ShortGridMembers(n, k - 1, s, l);
      RowMembers(50 * (k - 1), n, Lengths, s, l);
    }
  }

  lemma {:induction false} LongGridMembers(longueur: nat, k: nat, s: nat, l: nat)
    ensures (s, l) in LongGrid(longueur, k) <==> s % 100 == 0 && s < 100 * k && l == longueur
  {
    if k > 0 {
      LongGridMembers(longueur, k - 1, s, l);
    }
  }

  /** The candidates are exactly the grid points. */
  lemma {:induction false} CandidatesSpec(n: nat, longueur: nat, s: nat, l: nat)
    ensures (s, l) in Candidates(n, longueur) <==> InGrid(n, longueur, s, l)
  {
    var ks := ShortRows(Min(500, n - 30));
    var kl := LongRows(Min(800, n - longueur));
    CandidatesSplit(n, longueur);
    ShortGridMembers(n, ks, s, l);
    LongGridMembers(longueur, kl, s, l);
    if s % 50 == 0 {
      ShortBound(Min(500, n - 30), s);
    }
    if s % 100 == 0 {
      LongBound(Min(800, n - longueur), s);
    }
  }

  /** A multiple of 50 is among the first `ShortRows(m)` starts exactly when it is below `m`. */
  lemma ShortBound(m: int, s: nat)
    requires s % 50 == 0
    ensures s < 50 * ShortRows(m) <==> s < m
  {
    var r := ShortRows(m);
    var q := s / 50;
    assert s == 50 * q;
    if s < 50 * r && r > 0 {
      assert q <= r - 1;
    }
  }

  /** A multiple of 100 is among the first `LongRows(m)` starts exactly when it is below `m`. */
  lemma LongBound(m: int, s: nat)
    requires s % 100 == 0
    ensures s < 100 * LongRows(m) <==> s < m
  {
    var r := LongRows(m);
    var q := s / 100;
    assert s == 100 * q;
    if s < 100 * r && r > 0 {
      assert q <= r - 1;
    }
  }

  /** A grid point lies inside the text. */
  lemma {:induction false} InGridFits(n: nat, longueur: nat, s: nat, l: nat)
    requires InGrid(n, longueur, s, l)
    ensures s + l <= n
  {
  }

  /** `(s, l)` comes strictly before `(s', l')` in (start, length) order. */
  predicate LexBefore(p: (nat, nat), q: (nat, nat)) {
    p.0 < q.0 || (p.0 == q.0 && p.1 < q.1)
  }

  /** Strictly increasing in (start, length) order. */
  predicate LexSorted(cs: seq<(nat, nat)>) {
    forall i, j :: 0 <= i < j < |cs| ==> LexBefore(cs[i], cs[j])
  }

  /** Every candidate of `a` comes before every candidate of `b`. */
  predicate AllBefore(a: seq<(nat, nat)>, b: seq<(nat, nat)>) {
    forall p, q :: p in a && q in b ==> LexBefore(p, q)
  }

  lemma LexSortedConcat(a: seq<(nat, nat)>, b: seq<(nat, nat)>)
    requires LexSorted(a) && LexSorted(b) && AllBefore(a, b)
    ensures LexSorted(a + b)
  {
    var ab := a + b;
    forall i, j | 0 <= i < j < |ab| ensures LexBefore(ab[i], ab[j]) {
      if j < |a| {
        assert ab[i] == a[i] && ab[j] == a[j];
      } else if i >= |a| {
        assert ab[i] == b[i - |a|] && ab[j] == b[j - |a|];
      } else {
        assert ab[i] == a[i] && a[i] in a;
        assert ab[j] == b[j - |a|] && b[j - |a|] in b;
      }
    }
  }

  /** Strictly increasing lengths. */
  predicate Increasing(ls: seq<nat>) {
    forall i, j :: 0 <= i < j < |ls| ==> ls[i] < ls[j]
  }

  lemma {:induction false} RowSorted(start: nat, n: nat, ls: seq<nat>)
    requires Increasing(ls)
    ensures LexSorted(Row(start, n, ls))
  {
    if ls != [] {
      var init := ls[..|ls| - 1];
      var last := ls[|ls| - 1];
      assert Increasing(init);
      RowSorted(start, n, init);
      var tail := if start + last <= n then [(start, last)] else [];
      forall p, q | p in Row(start, n, init) && q in tail ensures LexBefore(p, q) {
        var i :| 0 <= i < |init| && init[i] == p.1;
        assert ls[i] < ls[|ls| - 1];
      }
      LexSortedConcat(Row(start, n, init), tail);
    }
  }

  /** The short candidates are tried in strictly increasing (start, length) order. */
  lemma {:induction false} ShortGridSorted(n: nat, k: nat)
    ensures LexSorted(ShortGrid(n, k))
  {
    if k > 0 {
      var before := ShortGrid(n, k - 1);
      var row := Row(50 * (k - 1), n, Lengths);
      ShortGridSorted(n, k - 1);
      RowSorted(50 * (k - 1), n, Lengths);
      forall p, q | p in before && q in row ensures LexBefore(p, q) {
        ShortGridMembers(n, k - 1, p.0, p.1);
        RowMembers(50 * (k - 1), n, Lengths, q.0, q.1);
      }
      LexSortedConcat(before, row);
    }
  }

  /** The long candidates are tried in strictly increasing start order. */
  lemma {:induction false} LongGridSorted(longueur: nat, k: nat)
    ensures LexSorted(LongGrid(longueur, k))
  {
    if k > 0 {
      var before := LongGrid(longueur, k - 1);
      var last := [(100 * (k - 1), longueur)];
      LongGridSorted(longueur, k - 1);
      forall p, q | p in before && q in last ensures LexBefore(p, q) {
        LongGridMembers(longueur, k - 1, p.0, p.1);
      }
      LexSortedConcat(before, last);
    }
  }

  /** The kept fragments are exactly the dense slices of the candidates. */
  lemma {:induction false} KeepMembers(c: string, cs: seq<(nat, nat)>, f: string)
    ensures f in Keep(c, cs) <==> Dense(f) && exists p :: p in cs && f == Slice(c, p)
  {
    if cs != [] {
      var init := cs[..|cs| - 1];
      var last := cs[|cs| - 1];
      assert cs == init + [last];
      KeepSnoc(c, init, last);
      KeepMembers(c, init, f);
      if Dense(f) && exists p :: p in cs && f == Slice(c, p) {
        var p :| p in cs && f == Slice(c, p);
        if p != last {
          assert p in init;
        }
      }
    }
  }

  /** `f` is the slice of `c` at the grid point `(s, l)`, and it is dense. */
  predicate AtGrid(c: string, longueur: nat, f: string, s: nat, l: nat) {
    InGrid(|c|, longueur, s, l) && s + l <= |c| && f == c[s..s + l] && Dense(f)
  }

  /**
   * A text shorter than `longueur` after cleaning gives itself when longer
   * than 20 characters and nothing otherwise; a longer one gives exactly the
   * dense slices at the grid points.
   */
  lemma FragmentsSpec(texte: string, longueur: nat, f: string)
    ensures var c := Collapse(texte);
            |c| < longueur ==> Fragments(texte, longueur) == if |c| > 20 then [c] else []
    ensures var c := Collapse(texte);
            |c| >= longueur ==>
              (f in Fragments(texte, longueur) <==> exists s: nat, l: nat :: AtGrid(c, longueur, f, s, l))
  {
    CleanFragmentsSpec(Collapse(texte), longueur, f);
  }

  /** The same, for a text already cleaned. */
  lemma CleanFragmentsSpec(c: string, longueur: nat, f: string)
    ensures |c| < longueur ==> CleanFragments(c, longueur) == if |c| > 20 then [c] else []
    ensures |c| >= longueur ==>
              (f in CleanFragments(c, longueur) <==> exists s: nat, l: nat :: AtGrid(c, longueur, f, s, l))
  {
    if |c| >= longueur {
      var cs := Candidates(|c|, longueur);
      assert CleanFragments(c, longueur) == Keep(c, cs);
      forall s: nat, l: nat ensures (s, l) in cs <==> InGrid(|c|, longueur, s, l) {
        CandidatesSpec(|c|, longueur, s, l);
      }
      KeptAtGrid(c, longueur, cs, f);
    }
  }

  /** The dense slices kept from candidates that are the grid points are the dense slices at the grid points. */
  lemma KeptAtGrid(c: string, longueur: nat, cs: seq<(nat, nat)>, f: string)
    requires forall s: nat, l: nat :: (s, l) in cs <==> InGrid(|c|, longueur, s, l)
    ensures f in Keep(c, cs) <==> exists s: nat, l: nat :: AtGrid(c, longueur, f, s, l)
  {
    KeepMembers(c, cs, f);
    if f in Keep(c, cs) {
      var p :| p in cs && f == Slice(c, p);
      GridPointAt(c, longueur, f, p.0, p.1);
    }
    if exists s: nat, l: nat :: AtGrid(c, longueur, f, s, l) {
      var s: nat, l: nat :| AtGrid(c, longueur, f, s, l);
      SliceOf(c, s, l);
      assert (s, l) in cs;
    }
  }

  /** A dense slice at a grid point is at the grid. */
  lemma GridPointAt(c: string, longueur: nat, f: string, s: nat, l: nat)
    requires InGrid(|c|, longueur, s, l) && f == Slice(c, (s, l)) && Dense(f)
    ensures AtGrid(c, longueur, f, s, l)
  {
    InGridFits(|c|, longueur, s, l);
    SliceOf(c, s, l);
  }

  /** A candidate inside the text is the plain slice. */
  lemma SliceOf(c: string, s: nat, l: nat)
    requires s + l <= |c|
    ensures Slice(c, (s, l)) == c[s..s + l]
  {
  }

  /** Keeping over one more candidate. */
  lemma KeepSnoc(c: string, cs: seq<(nat, nat)>, p: (nat, nat))
    ensures Keep(c, cs + [p]) == Keep(c, cs) + (if Dense(Slice(c, p)) then [Slice(c, p)] else [])
  {
    assert (cs + [p])[..|cs|] == cs;
  }

  /** Keeping distributes over concatenation of candidate lists. */
  lemma {:induction false} KeepAppend(c: string, a: seq<(nat, nat)>, b: seq<(nat, nat)>)
    ensures Keep(c, a + b) == Keep(c, a) + Keep(c, b)
    decreases |b|
  {
    if b == [] {
      assert a + b == a;
    } else {
      var init := b[..|b| - 1];
      var last := b[|b| - 1];
      assert b == init + [last];
      KeepAppend(c, a, init);
      AppendAssoc(a, init, [last]);
      KeepSnoc(c, a + init, last);
      KeepSnoc(c, init, last);
    }
  }

  lemma CandidatesSplit(n: nat, longueur: nat)
    ensures Candidates(n, longueur) == ShortGrid(n, ShortRows(Min(500, n - 30))) + LongGrid(longueur, LongRows(Min(800, n - longueur)))
  {
  }

  /** A long enough cleaned text's fragments: the kept short candidates, then the kept long ones. */
  lemma FragmentsGrid(c: string, longueur: nat)
    requires |c| >= longueur
    ensures CleanFragments(c, longueur)
         == Keep(c, ShortGrid(|c|, ShortRows(Min(500, |c| - 30)))) + Keep(c, LongGrid(longueur, LongRows(Min(800, |c| - longueur))))
  {
    var short := ShortGrid(|c|, ShortRows(Min(500, |c| - 30)));
    var long := LongGrid(longueur, LongRows(Min(800, |c| - longueur)));
    assert CleanFragments(c, longueur) == Keep(c, Candidates(|c|, longueur));
    CandidatesSplit(|c|, longueur);
    KeepAppend(c, short, long);
  }

  /** The row of one start over one more length. */
  lemma RowStep(start: nat, n: nat, ls: seq<nat>, j: nat)
    requires j < |ls|
    ensures Row(start, n, ls[..j + 1]) ==
      Row(start, n, ls[..j]) + (if start + ls[j] <= n then [(start, ls[j])] else [])
  {
    assert ls[..j + 1][..j] == ls[..j];
  }

  /**
   * `extraire_fragments`: clean; a short text is its own fragment or none;
   * otherwise the dense slices of the grid.
   */
  method ExtraireFragments(texte: string, longueur: nat) returns (fragments: seq<string>)
    ensures fragments == Fragments(texte, longueur)
  {
    var clean := Collapse(texte);
    var n := |clean|;
    if n < longueur {
      if n > 20 {
        return [clean];
      }
      return [];
    }
    var short := ScanShort(clean);
    var long := ScanLong(clean, longueur);
    fragments := short + long;
    FragmentsGrid(clean, longueur);
  }

  /** The inner loop of `extraire_fragments`: the lengths tried at one short start. */
  method ScanRow(clean: string, start: nat, ghost k: nat, kept: seq<string>)
    returns (fragments: seq<string>)
    requires start == 50 * k
    requires kept == Keep(clean, ShortGrid(|clean|, k))
    ensures fragments == Keep(clean, ShortGrid(|clean|, k + 1))
  {
    var n := |clean|;
    ghost var cands := ShortGrid(n, k);
    fragments := kept;
    ghost var row: seq<(nat, nat)> := [];
    assert cands + row == cands;
    var j := 0;
    while j < |Lengths|
      invariant 0 <= j <= |Lengths|
      invariant row == Row(start, n, Lengths[..j])
      invariant fragments == Keep(clean, cands + row)
    {
      var l := Lengths[j];
      RowStep(start, n, Lengths, j);
      if start + l <= n {
        var fragment := clean[start..start + l];
        SliceOf(clean, start, l);
        KeepSnoc(clean, cands + row, (start, l));
        AppendAssoc(cands, row, [(start, l)]);
        if Dense(fragment) {
          fragments := fragments + [fragment];
        }
        row := row + [(start, l)];
      }
      j := j + 1;
    }
    assert Lengths[..j] == Lengths;
  }

  /** The outer short loop of `extraire_fragments`: starts `0, 50, ...` below `min(500, n - 30)`. */
  method ScanShort(clean: string) returns (fragments: seq<string>)
    ensures fragments == Keep(clean, ShortGrid(|clean|, ShortRows(Min(500, |clean| - 30))))
  {
    var n := |clean|;
    fragments := [];
    var stop := Min(500, n - 30);
    var start: nat := 0;
    ghost var k: nat := 0;
    while start < stop
      invariant start == 50 * k && k <= ShortRows(stop)
      invariant fragments == Keep(clean, ShortGrid(n, k))
    {
      fragments := ScanRow(clean, start, k, fragments);
      start := start + 50;
      k := k + 1;
    }
    ShortRowsExit(stop, k);
  }

  /** The kept windows of the first `k` long candidates, window by window. */
  function LongKept(c: string, longueur: nat, k: nat): seq<string> {
    if k == 0 then []
    else
      var f := Slice(c, (100 * (k - 1), longueur));
      LongKept(c, longueur, k - 1) + (if Dense(f) then [f] else [])
  }

  /** Keeping the long grid is keeping it window by window. */
  lemma {:induction false} LongKeptKeep(c: string, longueur: nat, k: nat)
    ensures LongKept(c, longueur, k) == Keep(c, LongGrid(longueur, k))
  {
    if k > 0 {
      var p := (100 * (k - 1), longueur);
      var before := LongGrid(longueur, k - 1);
      var f := Slice(c, p);
      var kept := if Dense(f) then [f] else [];
      LongKeptKeep(c, longueur, k - 1);
      KeepSnoc(c, before, p);
      calc {
        Keep(c, LongGrid(longueur, k));
        Keep(c, before + [p]);
        Keep(c, before) + kept;
        LongKept(c, longueur, k - 1) + kept;
        LongKept(c, longueur, k);
      }
    }
  }

  /** One more long window kept or dropped. */
  lemma LongKeptStep(c: string, longueur: nat, k: nat, s: nat)
    requires s == 100 * k && s + longueur <= |c|
    ensures LongKept(c, longueur, k + 1)
         == LongKept(c, longueur, k) + (if Dense(c[s..s + longueur]) then [c[s..s + longueur]] else [])
  {
    SliceOf(c, s, longueur);
  }

  /** One window of the long loop: the slice at `start` is appended when it is dense. */
  method ScanWindow(clean: string, longueur: nat, start: nat, ghost k: nat, kept: seq<string>)
    returns (fragments: seq<string>)
    requires start == 100 * k && start + longueur <= |clean|
    requires kept == LongKept(clean, longueur, k)
    ensures fragments == LongKept(clean, longueur, k + 1)
  {
    var fragment := clean[start..start + longueur];
    LongKeptStep(clean, longueur, k, start);
    fragments := kept;
    if Dense(fragment) {
      fragments := fragments + [fragment];
    }
  }

  /** The long loop of `extraire_fragments`: windows of `longueur` at `0, 100, ...` below `min(800, n - longueur)`. */
  method ScanLong(clean: string, longueur: nat) returns (fragments: seq<string>)
    ensures fragments == Keep(clean, LongGrid(longueur, LongRows(Min(800, |clean| - longueur))))
  {
    var n := |clean|;
    fragments := [];
    var stop := Min(800, n - longueur);
    var start: nat := 0;
    ghost var k: nat := 0;
    while start < stop
      invariant start == 100 * k && k <= LongRows(stop)
      invariant fragments == LongKept(clean, longueur, k)
    {
      fragments := ScanWindow(clean, longueur, start, k, fragments);
      start := start + 100;
      k := k + 1;
    }
    LongLoopExit(clean, longueur, stop, k);
  }

  /** When the long loop stops, the windows kept are those of the whole long grid. */
  lemma LongLoopExit(clean: string, longueur: nat, stop: int, k: nat)
    requires stop == Min(800, |clean| - longueur)
    requires stop <= 100 * k && k <= LongRows(stop)
    ensures LongKept(clean, longueur, k) == Keep(clean, LongGrid(longueur, LongRows(Min(800, |clean| - longueur))))
  {
    LongRowsExit(stop, k);
    LongKeptKeep(clean, longueur, k);
  }

  // ---------------------------------------------------------------------------
  // Attribution of a question to a dossier
  // ---------------------------------------------------------------------------

  /** A dossier number with the fragments of its files. */
  type Dossier = (string, seq<string>)

  /** Fragment `j` of dossier `i` exists and occurs in the question. */
  predicate Occurs(ds: seq<Dossier>, q: string, i: int, j: int) {
    0 <= i < |ds| && 0 <= j < |ds[i].1| && Contains(ds[i].1[j], q)
  }

  /** Iteration order over (dossier, fragment) positions. */
  predicate Earlier(a: int, b: int, i: int, j: int) {
    a < i || (a == i && b < j)
  }

  /**
   * Fragment `j` of dossier `i` wins: it occurs, is not empty, no occurring
   * fragment is longer, and every occurring fragment met earlier is shorter.
   */
  ghost predicate Winner(ds: seq<Dossier>, q: string, i: int, j: int) {
    && Occurs(ds, q, i, j) && |ds[i].1[j]| > 0
    && (forall a, b :: Occurs(ds, q, a, b) ==> |ds[a].1[b]| <= |ds[i].1[j]|)
    && (forall a, b :: Occurs(ds, q, a, b) && Earlier(a, b, i, j) ==> |ds[a].1[b]| < |ds[i].1[j]|)
  }

  /** There is at most one winner, so the dossier returned is determined. */
  lemma {:induction false} WinnerUnique(ds: seq<Dossier>, q: string, i: int, j: int, i': int, j': int)
    requires Winner(ds, q, i, j) && Winner(ds, q, i', j')
    ensures i == i' && j == j'
  {
  }

  /**
   * `identifier_dossier`: `None` for a missing or empty question; otherwise
   * the dossier of the winning fragment in the cleaned question, and `None`
   * when no non-empty fragment occurs in it.
   */
  method IdentifierDossier(question: Option<string>, ds: seq<Dossier>) returns (r: Option<string>)
    ensures question.None? || question == Some([]) ==> r.None?
    ensures question.Some? && question.value != [] ==>
              var q := Collapse(question.value);
              && (r.None? <==> forall a, b :: Occurs(ds, q, a, b) ==> |ds[a].1[b]| == 0)
              && (r.Some? ==> exists i, j :: Winner(ds, q, i, j) && r.value == ds[i].0)
  {
    if question.None? || question.value == [] {
      return None;
    }
    r := MeilleurDossier(Collapse(question.value), ds);
  }

  /** The search loops of `identifier_dossier` over the cleaned question `q`. */
  method MeilleurDossier(q: string, ds: seq<Dossier>) returns (r: Option<string>)
    ensures r.None? <==> forall a, b :: Occurs(ds, q, a, b) ==> |ds[a].1[b]| == 0
    ensures r.Some? ==> exists i, j :: Winner(ds, q, i, j) && r.value == ds[i].0
  {
    r := None;
    var best: nat := 0;
    ghost var wi, wj := 0, 0;
    var i := 0;
    while i < |ds|
      invariant 0 <= i <= |ds|
      invariant best == 0 <==> r.None?
      invariant r.Some? ==> Occurs(ds, q, wi, wj) && wi < i && r.value == ds[wi].0 && |ds[wi].1[wj]| == best
      invariant forall a, b :: Occurs(ds, q, a, b) && a < i ==> |ds[a].1[b]| <= best
      invariant r.Some? ==> forall a, b :: Occurs(ds, q, a, b) && Earlier(a, b, wi, wj) ==> |ds[a].1[b]| < best
    {
      var fragments := ds[i].1;
      var j := 0;
      while j < |fragments|
        invariant 0 <= j <= |fragments|
        invariant best == 0 <==> r.None?
        invariant r.Some? ==> Occurs(ds, q, wi, wj) && Earlier(wi, wj, i, j) && r.value == ds[wi].0 && |ds[wi].1[wj]| == best
        invariant forall a, b :: Occurs(ds, q, a, b) && Earlier(a, b, i, j) ==> |ds[a].1[b]| <= best
        invariant r.Some? ==> forall a, b :: Occurs(ds, q, a, b) && Earlier(a, b, wi, wj) ==> |ds[a].1[b]| < best
      {
        var fragment := fragments[j];
        if Contains(fragment, q) {
          if |fragment| > best {
            best := |fragment|;
            r := Some(ds[i].0);
            wi, wj := i, j;
          }
        }
        j := j + 1;
      }
      i := i + 1;
    }
    if r.Some? {
      assert Winner(ds, q, wi, wj);
    }
  }
}
