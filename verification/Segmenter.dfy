/**
 * The deterministic splitter of a French legal brief ("conclusions") into its
 * header (`en_tete`) and the sections `faits`, `moyens`, `pretentions` and
 * `pieces` (amelioration_resume_test.py, `decouper_conclusions`).
 *
 * The regular-expression engine is not modelled: it is an `Engine`, a function
 * that gives the ascending start offsets of the matches of a pattern in a text
 * (what `re.finditer` yields; `re.search` is the first of them). The catalogue
 * keeps the source's patterns, in the source's order, as data for that engine.
 */
module Segmenter {
  import opened Wrappers
  import opened Text

  /** The sections a marker can open; the header is whatever precedes the first one. */
  datatype Kind = Faits | Moyens | Pretentions | Pieces

  /** Catalogue order of the kinds; also the tie-break order of the stable sort. */
  function Rank(k: Kind): nat {
    match k
    case Faits => 0
    case Moyens => 1
    case Pretentions => 2
    case Pieces => 3
  }

  /** `(pattern, text)` to the ascending start offsets of the pattern's matches. */
  type Engine = (string, string) -> seq<nat>

  /** One kind with its patterns, most specific first. */
  datatype Entry = Entry(kind: Kind, patterns: seq<string>)

  /** The pattern catalogue, in dictionary order. */
  const Catalogue: seq<Entry> := [
    Entry(Faits, [
      @"\n\s*A\.\s*FAITS\s+ET\s+PROC[EÉ]DURES?\s*\n",
      @"\n\s*I\.\s*FAITS\s+ET\s+PROC[EÉ]DURES?\s*\n",
      @"\n\s*I\.\s*Faits\s+et\s+proc[eé]dures?\s*\n",
      @"\n\s*I\s*[–\-]\s*RAPPEL\s+DES\s+FAITS(?:\s+ET\s+DE\s+LA\s+PROC[EÉ]DURE)?\s*\n",
      @"\n\s*I\s*[–\-]\s*FAITS\s+ET\s+PROC[EÉ]DURES?\s*\n",
      @"\n\s*FAITS\s+ET\s+PROC[EÉ]DURES?\s*\n",
      @"\n\s*I[\.\-\s]+(?:LES\s+)?FAITS\s*\n",
      @"\n\s*RAPPEL\s+DES\s+FAITS\s*\n",
      @"\n\s*EXPOS[EÉ]\s+DES\s+FAITS\s*\n",
      @"\n\s*LES\s+FAITS\s*\n"
    ]),
    Entry(Moyens, [
      @"\n\s*II\.\s*DISCUSSION\s*\n",
      @"\n\s*II[\.\-]\s*Discussion\s*\n",
      @"\n\s*B\.\s*DISCUSSION\s*\n",
      @"\n\s*II\s*[–\-]\s*DISCUSSION\s*\n",
      @"\n\s*1{1,2}\.\s*Discussion\s*\n",
      @"\n\s*DISCUSSION\s*\n",
      @"\n\s*II[\.\-\s]+(?:EN\s+)?DROIT\s*\n",
      @"\n\s*EN\s+DROIT\s*\n",
      @"\n\s*MOYENS\s*\n",
      @"\n\s*(?:LES\s+)?MOYENS\s+DE\s+DROIT\s*\n",
      @"\n\s*ARGUMENTAIRE\s*\n"
    ]),
    Entry(Pretentions, [
      @"\n\s*PAR\s+CES\s+MOTIFS\s*",
      @"\n\s*Par\s+ces\s+motifs\s*,?\s*(?:plaise\s+[aà]\s+la\s+cour)?\s*,?\s*\n",
      @"\n\s*EN\s+CONS[EÉ]QUENCE\s*\n",
      @"\n\s*IL\s+(?:EST\s+)?PLA[IÎ]T?\s+[AÀ]\s+LA\s+(?:COUR|JURIDICTION)\s*",
      @"\n\s*PLAISE\s+[AÀ]\s+LA\s+(?:COUR|JURIDICTION)\s*",
      @"\n\s*DISPOSITIF\s*\n",
      @"\n\s*C\'EST\s+POURQUOI\s*\n",
      @"\n\s*AU\s+REGARD\s+DE\s+CE\s+QUI\s+PR[EÉ]C[EÈ]DE\s*"
    ]),
    Entry(Pieces, [
      @"\n\s*[AÀ]\s+l\'appui\s+de\s+la\s+demande",
      @"\n\s*PI[EÈ]CES?\s+PRODUITES?\s+AUX\s+D[EÉ]BATS",
      @"\n\s*Liste\s+des\s+pi[eè]ces",
      @"\n\s*Pi[eè]ces?\s+communiqu[eé]es?\s*:",
      @"\n\s*BORDEREAU",
      @"\n\s*LISTE\s+DES\s+PI[EÈ]CES"
    ])
  ]

  lemma {:induction false} CatalogueInRankOrder()
    ensures |Catalogue| == 4 && RankedCatalogue(Catalogue)
  {
  }

  /**
   * What the engine promises on one text: the matches of every catalogue
   * pattern are strictly ascending offsets of the text, each at a `'\n'`
   * (every pattern of the catalogue begins with `\n`).
   */
  predicate WellFormedMatches(t: string, ms: seq<nat>) {
    && (forall i :: 0 <= i < |ms| ==> ms[i] < |t| && t[ms[i]] == '\n')
    && (forall i, j :: 0 <= i < j < |ms| ==> ms[i] < ms[j])
  }

  /** The engine keeps its promise on `t` for every pattern of `pats`. */
  predicate SoundFor(engine: Engine, t: string, pats: seq<string>) {
    forall j :: 0 <= j < |pats| ==> WellFormedMatches(t, engine(pats[j], t))
  }

  /** The engine keeps its promise on `t` for every pattern of the entries `cat`. */
  predicate SoundOn(engine: Engine, t: string, cat: seq<Entry>) {
    forall e :: 0 <= e < |cat| ==> SoundFor(engine, t, cat[e].patterns)
  }

  predicate EngineSound(engine: Engine, t: string) {
    SoundOn(engine, t, Catalogue)
  }

  /** Entry `e` of `cat` is the one of the kind of rank `e`. */
  predicate RankedCatalogue(cat: seq<Entry>) {
    forall e :: 0 <= e < |cat| ==> Rank(cat[e].kind) == e
  }

  // ---------------------------------------------------------------------------
  // Line-ending normalisation
  // ---------------------------------------------------------------------------

  /** `texte.replace('\r\n', '\n').replace('\r', '\n')`. */
  function Normalise(s: string): string {
    Replace(Replace(s, "\r\n", "\n"), "\r", "\n")
  }

  /** One left-to-right pass: a `"\r\n"` pair or a lone `'\r'` each become one `'\n'`. */
  function NormaliseOnePass(s: string): string {
    if s == [] then []
    else if s[0] == '\r' then "\n" + NormaliseOnePass(if |s| >= 2 && s[1] == '\n' then s[2..] else s[1..])
    else [s[0]] + NormaliseOnePass(s[1..])
  }

  lemma {:induction false} NormaliseIsOnePass(s: string)
    ensures Normalise(s) == NormaliseOnePass(s)
  {
    if s == [] {
    } else if |s| >= 2 && s[0] == '\r' && s[1] == '\n' {
      NormaliseIsOnePass(s[2..]);
      assert "\r\n" <= s;
      var x := Replace(s[2..], "\r\n", "\n");
      assert Replace(s, "\r\n", "\n") == "\n" + x;
      assert ("\n" + x)[1..] == x;
    } else if s[0] == '\r' {
      NormaliseIsOnePass(s[1..]);
      var x := Replace(s[1..], "\r\n", "\n");
      assert Replace(s, "\r\n", "\n") == ['\r'] + x;
      assert (['\r'] + x)[1..] == x;
    } else {
      NormaliseIsOnePass(s[1..]);
      var x := Replace(s[1..], "\r\n", "\n");
      assert Replace(s, "\r\n", "\n") == [s[0]] + x;
      assert ([s[0]] + x)[1..] == x;
    }
  }

  lemma {:induction false} OnePassNoCarriageReturn(s: string)
    ensures '\r' !in NormaliseOnePass(s)
  {
    if s == [] {
    } else if s[0] == '\r' {
      OnePassNoCarriageReturn(if |s| >= 2 && s[1] == '\n' then s[2..] else s[1..]);
    } else {
      OnePassNoCarriageReturn(s[1..]);
    }
  }

  lemma {:induction false} OnePassKeepsPlainText(s: string)
    requires '\r' !in s
    ensures NormaliseOnePass(s) == s
  {
    if s != [] {
      OnePassKeepsPlainText(s[1..]);
      assert [s[0]] + s[1..] == s;
    }
  }

  /**
   * After normalisation no `'\r'` is left, each `"\r\n"` and each lone `'\r'`
   * has become exactly one `'\n'`, and a text without `'\r'` is unchanged
   * (so normalising twice is normalising once).
   */
  lemma {:induction false} NormaliseSpec(s: string)
    ensures '\r' !in Normalise(s)
    ensures Normalise(s) == NormaliseOnePass(s)
    ensures '\r' !in s ==> Normalise(s) == s
    ensures Normalise(Normalise(s)) == Normalise(s)
  {
    NormaliseIsOnePass(s);
    OnePassNoCarriageReturn(s);
    if '\r' !in s {
      OnePassKeepsPlainText(s);
    }
    NormaliseIsOnePass(Normalise(s));
    OnePassKeepsPlainText(Normalise(s));
  }

  // ---------------------------------------------------------------------------
  // One boundary per kind
  // ---------------------------------------------------------------------------

  /** The matches of the first pattern of `pats` that matches anywhere. */
  function FirstMatching(engine: Engine, t: string, pats: seq<string>): (r: Option<seq<nat>>)
    ensures r.Some? ==> r.value != []
  {
    if pats == [] then None
    else if engine(pats[0], t) != [] then Some(engine(pats[0], t))
    else FirstMatching(engine, t, pats[1..])
  }

  /**
   * The boundary of one kind: the earliest match of its first matching
   * pattern, except for `pretentions`, where it is the last match.
   */
  function Boundary(engine: Engine, t: string, e: Entry): Option<nat> {
    match FirstMatching(engine, t, e.patterns)
    case None => None
    case Some(ms) => Some(if e.kind == Pretentions then ms[|ms| - 1] else ms[0])
  }

  /** The pattern at `j` matches and none before it does: its matches are the ones used. */
  lemma {:induction false} FirstMatchingAt(engine: Engine, t: string, pats: seq<string>, j: nat)
    requires j < |pats| && engine(pats[j], t) != []
    requires forall i :: 0 <= i < j ==> engine(pats[i], t) == []
    ensures FirstMatching(engine, t, pats) == Some(engine(pats[j], t))
  {
    if j > 0 {
      FirstMatchingAt(engine, t, pats[1..], j - 1);
    }
  }

  lemma {:induction false} FirstMatchingNone(engine: Engine, t: string, pats: seq<string>)
    ensures FirstMatching(engine, t, pats) == None <==> forall i :: 0 <= i < |pats| ==> engine(pats[i], t) == []
  {
    if pats != [] {
      FirstMatchingNone(engine, t, pats[1..]);
      if engine(pats[0], t) == [] {
        assert forall i :: 1 <= i < |pats| ==> pats[i] == pats[1..][i - 1];
      }
    }
  }

  /**
   * A later pattern is never consulted: two engines that agree on the
   * patterns up to the first one that matches give the same boundary.
   */
  lemma {:induction false} LaterPatternsIgnored(e1: Engine, e2: Engine, t: string, pats: seq<string>, j: nat)
    requires j < |pats| && e1(pats[j], t) != []
    requires forall i :: 0 <= i <= j ==> e1(pats[i], t) == e2(pats[i], t)
    ensures FirstMatching(e1, t, pats) == FirstMatching(e2, t, pats)
  {
    if e1(pats[0], t) == [] {
      LaterPatternsIgnored(e1, e2, t, pats[1..], j - 1);
    }
  }

  /**
   * The boundary rule: when the pattern at `j` is the first that matches, the
   * boundary is one of its matches, no later than any other match of it for
   * `faits`, `moyens` and `pieces`, and no earlier than any for `pretentions`.
   */
  lemma {:induction false} BoundaryRule(engine: Engine, t: string, e: Entry, j: nat)
    requires j < |e.patterns| && engine(e.patterns[j], t) != []
    requires forall i :: 0 <= i < j ==> engine(e.patterns[i], t) == []
    requires WellFormedMatches(t, engine(e.patterns[j], t))
    ensures Boundary(engine, t, e).Some?
    ensures Boundary(engine, t, e).value in engine(e.patterns[j], t)
    ensures e.kind == Pretentions ==>
      forall m :: m in engine(e.patterns[j], t) ==> m <= Boundary(engine, t, e).value
    ensures e.kind != Pretentions ==>
      forall m :: m in engine(e.patterns[j], t) ==> Boundary(engine, t, e).value <= m
  {
    FirstMatchingAt(engine, t, e.patterns, j);
  }

  /** No boundary exactly when none of the kind's patterns matches. */
  lemma {:induction false} BoundaryAbsent(engine: Engine, t: string, e: Entry)
    ensures Boundary(engine, t, e).None? <==> forall i :: 0 <= i < |e.patterns| ==> engine(e.patterns[i], t) == []
  {
    FirstMatchingNone(engine, t, e.patterns);
  }

  lemma {:induction false} FirstMatchingWellFormed(engine: Engine, t: string, pats: seq<string>)
    requires SoundFor(engine, t, pats)
    ensures FirstMatching(engine, t, pats).Some? ==> WellFormedMatches(t, FirstMatching(engine, t, pats).value)
  {
    if pats != [] && engine(pats[0], t) == [] {
      assert SoundFor(engine, t, pats[1..]) by {
        forall j | 0 <= j < |pats[1..]| ensures WellFormedMatches(t, engine(pats[1..][j], t)) {
          assert pats[1..][j] == pats[j + 1];
        }
      }
      FirstMatchingWellFormed(engine, t, pats[1..]);
    }
  }

  /** A boundary is the offset of a `'\n'` of the text. */
  lemma {:induction false} BoundaryInText(engine: Engine, t: string, e: Entry)
    requires SoundFor(engine, t, e.patterns)
    ensures Boundary(engine, t, e).Some? ==>
      Boundary(engine, t, e).value < |t| && t[Boundary(engine, t, e).value] == '\n'
  {
    FirstMatchingWellFormed(engine, t, e.patterns);
  }

  // ---------------------------------------------------------------------------
  // The boundaries found, in catalogue order (the `positions` dictionary)
  // ---------------------------------------------------------------------------

  /** `positions.items()` after scanning the entries `cat`, in insertion order. */
  function Positions(engine: Engine, t: string, cat: seq<Entry>): seq<(Kind, nat)> {
    if cat == [] then []
    else
      Positions(engine, t, cat[..|cat| - 1]) +
      match Boundary(engine, t, cat[|cat| - 1])
      case None => []
      case Some(b) => [(cat[|cat| - 1].kind, b)]
  }

  function Kinds(ps: seq<(Kind, nat)>): (ks: seq<Kind>)
    ensures |ks| == |ps|
    ensures forall i :: 0 <= i < |ps| ==> ks[i] == ps[i].0
  {
    if ps == [] then [] else [ps[0].0] + Kinds(ps[1..])
  }

  /** Kinds in strictly increasing catalogue order (so each at most once). */
  predicate StrictRanks(ps: seq<(Kind, nat)>) {
    forall i, j :: 0 <= i < j < |ps| ==> Rank(ps[i].0) < Rank(ps[j].0)
  }

  /**
   * `positions` after scanning `cat`: a kind appears, with offset `b`,
   * exactly when `b` is the boundary of its entry; kinds appear in catalogue
   * order; every offset is that of a `'\n'` of the text.
   */
  lemma PositionsSpec(engine: Engine, t: string, cat: seq<Entry>)
    requires RankedCatalogue(cat) && SoundOn(engine, t, cat)
    ensures StrictRanks(Positions(engine, t, cat))
    ensures forall k, b :: (k, b) in Positions(engine, t, cat) <==>
      Rank(k) < |cat| && Boundary(engine, t, cat[Rank(k)]) == Some(b)
    ensures forall p :: p in Positions(engine, t, cat) ==> p.1 < |t| && t[p.1] == '\n'
  {
    PositionsRanks(engine, t, cat);
    forall k: Kind, b: nat ensures (k, b) in Positions(engine, t, cat) <==>
      Rank(k) < |cat| && Boundary(engine, t, cat[Rank(k)]) == Some(b)
    {
      PositionsMembers(engine, t, cat, k, b);
    }
    PositionsInText(engine, t, cat);
  }

  /** The entries before the last one of a ranked catalogue are ranked. */
  lemma InitRanked(cat: seq<Entry>)
    requires RankedCatalogue(cat) && cat != []
    ensures RankedCatalogue(cat[..|cat| - 1])
  {
    var init := cat[..|cat| - 1];
    forall e | 0 <= e < |init| ensures Rank(init[e].kind) == e {
      assert init[e] == cat[e];
    }
  }

  /** The boundary of the last entry, as `positions` gets it (nothing or one pair). */
  function LastPosition(engine: Engine, t: string, cat: seq<Entry>): seq<(Kind, nat)>
    requires cat != []
  {
    match Boundary(engine, t, cat[|cat| - 1])
    case None => []
    case Some(b) => [(cat[|cat| - 1].kind, b)]
  }

  lemma PositionsUnfold(engine: Engine, t: string, cat: seq<Entry>)
    requires cat != []
    ensures Positions(engine, t, cat) ==
      Positions(engine, t, cat[..|cat| - 1]) + LastPosition(engine, t, cat)
  {
  }

  lemma {:induction false} PositionsRanks(engine: Engine, t: string, cat: seq<Entry>)
    requires RankedCatalogue(cat)
    ensures StrictRanks(Positions(engine, t, cat))
    ensures forall p :: p in Positions(engine, t, cat) ==> Rank(p.0) < |cat|
  {
    if cat != [] {
      var init := cat[..|cat| - 1];
      InitRanked(cat);
      PositionsRanks(engine, t, init);
      PositionsUnfold(engine, t, cat);
      var ps := Positions(engine, t, init);
      var last := LastPosition(engine, t, cat);
      var all := ps + last;
      forall i, j | 0 <= i < j < |all| ensures Rank(all[i].0) < Rank(all[j].0) {
        if j >= |ps| {
          assert all[i] == ps[i] && ps[i] in ps;
          assert all[j] == last[0];
        } else {
          assert all[i] == ps[i] && all[j] == ps[j];
        }
      }
      forall p | p in all ensures Rank(p.0) < |cat| {
        if p in ps {
        } else {
          assert p == last[0];
        }
      }
    }
  }

  lemma {:induction false} PositionsMembers(engine: Engine, t: string, cat: seq<Entry>, k: Kind, b: nat)
    requires RankedCatalogue(cat)
    ensures (k, b) in Positions(engine, t, cat) <==>
      Rank(k) < |cat| && Boundary(engine, t, cat[Rank(k)]) == Some(b)
  {
    if cat != [] {
      var init := cat[..|cat| - 1];
      InitRanked(cat);
      PositionsMembers(engine, t, init, k, b);
      PositionsUnfold(engine, t, cat);
      var n := |cat| - 1;
      assert Rank(cat[n].kind) == n;
      assert k == cat[n].kind <==> Rank(k) == n;
      if Rank(k) < n {
        assert init[Rank(k)] == cat[Rank(k)];
      }
    }
  }

  lemma {:induction false} PositionsInText(engine: Engine, t: string, cat: seq<Entry>)
    requires SoundOn(engine, t, cat)
    ensures forall p :: p in Positions(engine, t, cat) ==> p.1 < |t| && t[p.1] == '\n'
  {
    if cat != [] {
      var init := cat[..|cat| - 1];
      assert SoundOn(engine, t, init) by {
        forall e | 0 <= e < |init| ensures SoundFor(engine, t, init[e].patterns) {
          assert init[e] == cat[e];
        }
      }
      PositionsInText(engine, t, init);
      PositionsUnfold(engine, t, cat);
      assert SoundFor(engine, t, cat[|cat| - 1].patterns);
      BoundaryInText(engine, t, cat[|cat| - 1]);
    }
  }

  // ---------------------------------------------------------------------------
  // Ordering the boundaries: `sorted(positions.items(), key=offset)`, stable
  // ---------------------------------------------------------------------------

  /** Inserts `p` before the first element whose offset is not below it. */
  function Insert(p: (Kind, nat), ps: seq<(Kind, nat)>): seq<(Kind, nat)> {
    if ps == [] || p.1 <= ps[0].1 then [p] + ps
    else [ps[0]] + Insert(p, ps[1..])
  }

  /** A stable sort on the offset: among equal offsets, input order is kept. */
  function SortByOffset(ps: seq<(Kind, nat)>): seq<(Kind, nat)> {
    if ps == [] then [] else Insert(ps[0], SortByOffset(ps[1..]))
  }

  /** `p` comes before `q`: a smaller offset, or the same offset and an earlier kind. */
  predicate Before(p: (Kind, nat), q: (Kind, nat)) {
    p.1 < q.1 || (p.1 == q.1 && Rank(p.0) < Rank(q.0))
  }

  /** Ordered by offset, and by catalogue order among equal offsets. */
  predicate LexSorted(ps: seq<(Kind, nat)>) {
    forall i, j :: 0 <= i < j < |ps| ==> Before(ps[i], ps[j])
  }

  lemma {:induction false} InsertMultiset(p: (Kind, nat), ps: seq<(Kind, nat)>)
    ensures multiset(Insert(p, ps)) == multiset(ps) + multiset{p}
  {
    if ps != [] && ps[0].1 < p.1 {
      InsertMultiset(p, ps[1..]);
      assert ps == [ps[0]] + ps[1..];
    }
  }

  lemma {:induction false} InsertMembers(p: (Kind, nat), ps: seq<(Kind, nat)>)
    ensures forall q :: q in Insert(p, ps) <==> q == p || q in ps
  {
    InsertMultiset(p, ps);
    forall q ensures q in Insert(p, ps) <==> q == p || q in ps {
      assert q in Insert(p, ps) <==> q in multiset(Insert(p, ps));
      assert q in ps <==> q in multiset(ps);
    }
  }

  lemma {:induction false} LexSortedTail(ps: seq<(Kind, nat)>)
    requires ps != [] && LexSorted(ps)
    ensures LexSorted(ps[1..])
    ensures forall q :: q in ps[1..] ==> Before(ps[0], q)
  {
    forall i, j | 0 <= i < j < |ps[1..]| ensures Before(ps[1..][i], ps[1..][j]) {
      assert ps[1..][i] == ps[i + 1] && ps[1..][j] == ps[j + 1];
    }
    forall q | q in ps[1..] ensures Before(ps[0], q) {
      var j :| 0 <= j < |ps[1..]| && ps[1..][j] == q;
      assert ps[j + 1] == q;
    }
  }

  lemma {:induction false} LexSortedCons(x: (Kind, nat), r: seq<(Kind, nat)>)
    requires LexSorted(r)
    requires forall q :: q in r ==> Before(x, q)
    ensures LexSorted([x] + r)
  {
    forall i, j | 0 <= i < j < |[x] + r| ensures Before(([x] + r)[i], ([x] + r)[j]) {
      assert ([x] + r)[j] == r[j - 1] && r[j - 1] in r;
      if i > 0 {
        assert ([x] + r)[i] == r[i - 1];
      }
    }
  }

  lemma {:induction false} InsertSorted(p: (Kind, nat), ps: seq<(Kind, nat)>)
    requires LexSorted(ps)
    requires forall q :: q in ps ==> Rank(p.0) < Rank(q.0)
    ensures LexSorted(Insert(p, ps))
  {
    if ps == [] {
    } else if ps[0].1 < p.1 {
      LexSortedTail(ps);
      InsertSorted(p, ps[1..]);
      InsertMembers(p, ps[1..]);
      LexSortedCons(ps[0], Insert(p, ps[1..]));
    } else {
      LexSortedTail(ps);
      assert forall q :: q in ps ==> q == ps[0] || q in ps[1..];
      LexSortedCons(p, ps);
    }
  }

  lemma {:induction false} StrictRanksTail(ps: seq<(Kind, nat)>)
    requires ps != [] && StrictRanks(ps)
    ensures StrictRanks(ps[1..])
    ensures forall q :: q in ps[1..] ==> Rank(ps[0].0) < Rank(q.0)
  {
    forall i, j | 0 <= i < j < |ps[1..]| ensures Rank(ps[1..][i].0) < Rank(ps[1..][j].0) {
      assert ps[1..][i] == ps[i + 1] && ps[1..][j] == ps[j + 1];
    }
    forall q | q in ps[1..] ensures Rank(ps[0].0) < Rank(q.0) {
      var j :| 0 <= j < |ps[1..]| && ps[1..][j] == q;
      assert ps[j + 1] == q;
    }
  }

  lemma {:induction false} SortByOffsetMultiset(ps: seq<(Kind, nat)>)
    ensures multiset(SortByOffset(ps)) == multiset(ps)
  {
    if ps != [] {
      SortByOffsetMultiset(ps[1..]);
      InsertMultiset(ps[0], SortByOffset(ps[1..]));
      assert ps == [ps[0]] + ps[1..];
    }
  }

  lemma {:induction false} SortByOffsetMembers(ps: seq<(Kind, nat)>)
    ensures forall q :: q in SortByOffset(ps) <==> q in ps
  {
    SortByOffsetMultiset(ps);
    forall q ensures q in SortByOffset(ps) <==> q in ps {
      assert q in SortByOffset(ps) <==> q in multiset(SortByOffset(ps));
      assert q in ps <==> q in multiset(ps);
    }
  }

  lemma {:induction false} SortByOffsetSorted(ps: seq<(Kind, nat)>)
    requires StrictRanks(ps)
    ensures LexSorted(SortByOffset(ps))
  {
    if ps != [] {
      StrictRanksTail(ps);
      SortByOffsetSorted(ps[1..]);
      SortByOffsetMembers(ps[1..]);
      InsertSorted(ps[0], SortByOffset(ps[1..]));
    }
  }

  /**
   * The ordered boundaries are a permutation of `positions`, ordered by
   * offset, with ties in catalogue order (the sort is stable and `positions`
   * is in catalogue order).
   */
  lemma {:induction false} SortByOffsetSpec(ps: seq<(Kind, nat)>)
    requires StrictRanks(ps)
    ensures multiset(SortByOffset(ps)) == multiset(ps)
    ensures forall q :: q in SortByOffset(ps) <==> q in ps
    ensures LexSorted(SortByOffset(ps))
  {
    SortByOffsetMultiset(ps);
    SortByOffsetMembers(ps);
    SortByOffsetSorted(ps);
  }

  /** Same kind never twice. */
  predicate DistinctKinds(ps: seq<(Kind, nat)>) {
    forall i, j :: 0 <= i < j < |ps| ==> ps[i].0 != ps[j].0
  }

  /** Sorted by offset (ties in catalogue order) and within a text of length `n`. */
  predicate OrderedIn(o: seq<(Kind, nat)>, n: nat) {
    LexSorted(o) && forall i :: 0 <= i < |o| ==> o[i].1 <= n
  }

  /** `sections_ordonnees`: the boundaries of a (normalised) text, by offset. */
  function Ordered(engine: Engine, t: string, cat: seq<Entry>): seq<(Kind, nat)> {
    SortByOffset(Positions(engine, t, cat))
  }

  /**
   * The ordered boundaries: a permutation of `positions`, sorted by offset
   * with ties in catalogue order, each kind once, each inside the text.
   */
  lemma {:induction false} OrderedSpec(engine: Engine, t: string, cat: seq<Entry>)
    requires RankedCatalogue(cat) && SoundOn(engine, t, cat)
    ensures multiset(Ordered(engine, t, cat)) == multiset(Positions(engine, t, cat))
    ensures forall p :: p in Ordered(engine, t, cat) <==> p in Positions(engine, t, cat)
    ensures OrderedIn(Ordered(engine, t, cat), |t|)
    ensures DistinctKinds(Ordered(engine, t, cat))
  {
    var ps := Positions(engine, t, cat);
    PositionsSpec(engine, t, cat);
    SortByOffsetSpec(ps);
    var o := SortByOffset(ps);
    forall i | 0 <= i < |o| ensures o[i].1 <= |t| {
      assert o[i] in ps;
    }
    forall i, j | 0 <= i < j < |o| ensures o[i].0 != o[j].0 {
      assert o[i] != o[j];
      StrictRanksDistinct(ps, o[i], o[j]);
    }
  }

  lemma {:induction false} WholePrefix<T>(s: seq<T>)
    ensures s[..|s|] == s
  {
  }

  lemma {:induction false} PrefixStep<T>(s: seq<T>, n: nat)
    requires n < |s|
    ensures s[..n + 1][..n] == s[..n] && s[..n + 1][n] == s[n] && |s[..n + 1]| == n + 1
  {
  }

  lemma {:induction false} SameElements(a: seq<(Kind, nat)>, b: seq<(Kind, nat)>)
    requires multiset(a) == multiset(b)
    ensures forall p :: p in a <==> p in b
  {
    forall p ensures p in a <==> p in b {
      assert p in a <==> p in multiset(a);
      assert p in b <==> p in multiset(b);
    }
  }

  lemma {:induction false} StrictRanksDistinct(ps: seq<(Kind, nat)>, p: (Kind, nat), q: (Kind, nat))
    requires StrictRanks(ps) && p in ps && q in ps && p != q
    ensures p.0 != q.0
  {
    var a :| 0 <= a < |ps| && ps[a] == p;
    var b :| 0 <= b < |ps| && ps[b] == q;
    assert a != b;
    assert Rank(ps[a].0) != Rank(ps[b].0);
  }

  // ---------------------------------------------------------------------------
  // Slicing
  // ---------------------------------------------------------------------------

  /** The splitter's result dictionary, without the `methode` tag. */
  datatype Sections = Sections(enTete: string, faits: string, moyens: string,
                               pretentions: string, pieces: string, found: seq<Kind>)
  {
    function Get(k: Kind): string {
      match k
      case Faits => faits
      case Moyens => moyens
      case Pretentions => pretentions
      case Pieces => pieces
    }

    /** `resultat[k] = v`. */
    function Set(k: Kind, v: string): (r: Sections)
      ensures r.Get(k) == v
      ensures forall k' :: k' != k ==> r.Get(k') == Get(k')
      ensures r.enTete == enTete && r.found == found
    {
      match k
      case Faits => this.(faits := v)
      case Moyens => this.(moyens := v)
      case Pretentions => this.(pretentions := v)
      case Pieces => this.(pieces := v)
    }
  }

  /** Where the section opened by `o[i]` stops: the next boundary, or the end. */
  function EndOf(o: seq<(Kind, nat)>, i: nat, n: nat): nat
    requires i < |o|
  {
    if i + 1 < |o| then o[i + 1].1 else n
  }

  /** The first index holding kind `k`. */
  function IndexOf(o: seq<(Kind, nat)>, k: Kind): (r: Option<nat>)
    ensures r.Some? ==> r.value < |o| && o[r.value].0 == k
    ensures r.Some? ==> forall i :: 0 <= i < r.value ==> o[i].0 != k
    ensures r.None? ==> forall i :: 0 <= i < |o| ==> o[i].0 != k
  {
    if o == [] then None
    else if o[0].0 == k then Some(0)
    else match IndexOf(o[1..], k)
      case None => None
      case Some(i) => Some(i + 1)
  }

  /** The stripped text of the section opened by `o[i]`. */
  function SpanText(t: string, o: seq<(Kind, nat)>, i: nat): string
    requires OrderedIn(o, |t|) && i < |o|
  {
    Strip(t[o[i].1..EndOf(o, i, |t|)])
  }

  /** The stripped text of kind `k`, or `''` when it has no boundary. */
  function SectionText(t: string, o: seq<(Kind, nat)>, k: Kind): string
    requires OrderedIn(o, |t|)
  {
    match IndexOf(o, k)
    case None => []
    case Some(i) => SpanText(t, o, i)
  }

  /** What `decouper_conclusions(texte)` returns when its catalogue is `cat`. */
  function Segmentation(texte: string, engine: Engine, cat: seq<Entry>): Sections
    requires RankedCatalogue(cat) && SoundOn(engine, Normalise(texte), cat)
  {
    var t := Normalise(texte);
    OrderedSpec(engine, t, cat);
    Cut(t, Ordered(engine, t, cat), Kinds(Positions(engine, t, cat)))
  }

  /** What `decouper_conclusions(texte)` returns, with the source's own catalogue. */
  function Decoupage(texte: string, engine: Engine): Sections
    requires EngineSound(engine, Normalise(texte))
  {
    CatalogueInRankOrder();
    Segmentation(texte, engine, Catalogue)
  }

  /** The header and the sections of `t` cut at the ordered boundaries `o`. */
  function Cut(t: string, o: seq<(Kind, nat)>, found: seq<Kind>): Sections
    requires OrderedIn(o, |t|)
  {
    Sections(if o == [] then Strip(t) else Strip(t[..o[0].1]),
             SectionText(t, o, Faits), SectionText(t, o, Moyens),
             SectionText(t, o, Pretentions), SectionText(t, o, Pieces),
             found)
  }

  /**
   * `base` after the first `i` ordered boundaries have written their texts:
   * `texts[j]` goes to the kind of `o[j]`.
   */
  ghost function Filled(o: seq<(Kind, nat)>, texts: seq<string>, i: nat, base: Sections): Sections
    requires |texts| == |o| && i <= |o|
  {
    if i == 0 then base else Filled(o, texts, i - 1, base).Set(o[i - 1].0, texts[i - 1])
  }

  /** The section `k` once `i` boundaries are written: its text if its boundary is among them. */
  function FilledValue(o: seq<(Kind, nat)>, texts: seq<string>, i: nat, base: Sections, k: Kind): string
    requires |texts| == |o|
  {
    match IndexOf(o, k)
    case Some(j) => if j < i then texts[j] else base.Get(k)
    case None => base.Get(k)
  }

  /** Writing the sections leaves the header and the list of kinds found alone. */
  lemma {:induction false} FilledFrame(o: seq<(Kind, nat)>, texts: seq<string>, i: nat, base: Sections)
    requires |texts| == |o| && i <= |o|
    ensures Filled(o, texts, i, base).enTete == base.enTete
    ensures Filled(o, texts, i, base).found == base.found
  {
    if i > 0 {
      FilledFrame(o, texts, i - 1, base);
    }
  }

  /** Section `k` after `i` boundaries are written. */
  lemma {:induction false} FilledSpec(o: seq<(Kind, nat)>, texts: seq<string>, i: nat, base: Sections, k: Kind)
    requires |texts| == |o| && DistinctKinds(o) && i <= |o|
    ensures Filled(o, texts, i, base).Get(k) == FilledValue(o, texts, i, base, k)
  {
    if i > 0 {
      FilledSpec(o, texts, i - 1, base, k);
      if o[i - 1].0 == k {
        assert IndexOf(o, k) == Some(i - 1);
      } else {
        assert IndexOf(o, k) != Some(i - 1);
      }
    }
  }

  // ---------------------------------------------------------------------------
  // What the splitter promises
  // ---------------------------------------------------------------------------

  function Concat(xs: seq<string>): string {
    if xs == [] then [] else xs[0] + Concat(xs[1..])
  }

  /** The raw pieces of `t` from the boundary `o[i]` on, each up to the next boundary or the end. */
  function SpansFrom(t: string, o: seq<(Kind, nat)>, i: nat): (r: seq<string>)
    requires OrderedIn(o, |t|) && i <= |o|
    ensures |r| == |o| - i
    decreases |o| - i
  {
    if i == |o| then [] else [t[o[i].1..EndOf(o, i, |t|)]] + SpansFrom(t, o, i + 1)
  }

  lemma {:induction false} SpansCover(t: string, o: seq<(Kind, nat)>, i: nat)
    requires OrderedIn(o, |t|) && i < |o|
    ensures Concat(SpansFrom(t, o, i)) == t[o[i].1..]
    decreases |o| - i
  {
    var sp := SpansFrom(t, o, i);
    assert sp[1..] == SpansFrom(t, o, i + 1);
    if i + 1 < |o| {
      SpansCover(t, o, i + 1);
      assert o[i].1 <= o[i + 1].1 by { assert Before(o[i], o[i + 1]); }
      assert t[o[i].1..o[i + 1].1] + t[o[i + 1].1..] == t[o[i].1..];
    } else {
      assert Concat(sp[1..]) == [];
      assert t[o[i].1..|t|] == t[o[i].1..];
    }
  }

  lemma {:induction false} SpansAt(t: string, o: seq<(Kind, nat)>, i: nat, j: nat)
    requires OrderedIn(o, |t|) && i <= j < |o|
    ensures SpansFrom(t, o, i)[j - i] == t[o[j].1..EndOf(o, j, |t|)]
    decreases j - i
  {
    if i < j {
      SpansAt(t, o, i + 1, j);
      assert SpansFrom(t, o, i)[j - i] == SpansFrom(t, o, i + 1)[j - i - 1];
    }
  }

  lemma {:induction false} KindsMembers(ps: seq<(Kind, nat)>, k: Kind)
    ensures k in Kinds(ps) <==> exists b :: (k, b) in ps
  {
    if k in Kinds(ps) {
      var i :| 0 <= i < |ps| && Kinds(ps)[i] == k;
      assert (k, ps[i].1) in ps;
    }
    if exists b :: (k, b) in ps {
      var b :| (k, b) in ps;
      var i :| 0 <= i < |ps| && ps[i] == (k, b);
      assert Kinds(ps)[i] == k;
    }
  }

  /** A kind with no boundary among `o` gets `''`; with no boundary at all the header is the whole text stripped. */
  lemma {:induction false} CutAbsent(t: string, o: seq<(Kind, nat)>, found: seq<Kind>, k: Kind)
    requires OrderedIn(o, |t|)
    requires forall b :: (k, b) !in o
    ensures Cut(t, o, found).Get(k) == []
    ensures o == [] ==> Cut(t, o, found).enTete == Strip(t)
  {
  }

  /**
   * The kinds listed in `sections_trouvees` are exactly those whose entry has a
   * boundary, in catalogue order, each once; a kind without a boundary gets
   * `''`; with no boundary at all the header is the whole stripped text.
   */
  lemma {:induction false} SegmentationFound(texte: string, engine: Engine, cat: seq<Entry>, k: Kind)
    requires RankedCatalogue(cat) && SoundOn(engine, Normalise(texte), cat)
    ensures k in Segmentation(texte, engine, cat).found <==>
      Rank(k) < |cat| && Boundary(engine, Normalise(texte), cat[Rank(k)]).Some?
    ensures forall i, j :: 0 <= i < j < |Segmentation(texte, engine, cat).found| ==>
      Rank(Segmentation(texte, engine, cat).found[i]) < Rank(Segmentation(texte, engine, cat).found[j])
    ensures k !in Segmentation(texte, engine, cat).found ==> Segmentation(texte, engine, cat).Get(k) == []
    ensures Segmentation(texte, engine, cat).found == [] ==>
      Segmentation(texte, engine, cat).enTete == Strip(Normalise(texte))
  {
    var t := Normalise(texte);
    var ps := Positions(engine, t, cat);
    PositionsSpec(engine, t, cat);
    OrderedSpec(engine, t, cat);
    var o := Ordered(engine, t, cat);
    KindsMembers(ps, k);
    if Rank(k) < |cat| && Boundary(engine, t, cat[Rank(k)]).Some? {
      assert (k, Boundary(engine, t, cat[Rank(k)]).value) in ps;
    }
    if k !in Kinds(ps) {
      CutAbsent(t, o, Kinds(ps), k);
    }
    if Kinds(ps) == [] {
      assert o == [] by { assert multiset(o) == multiset(ps); }
      CutAbsent(t, o, Kinds(ps), k);
    }
  }

  /** `o[i]`'s section is the `i`-th raw piece stripped. */
  lemma {:induction false} CutAt(t: string, o: seq<(Kind, nat)>, found: seq<Kind>, i: nat)
    requires OrderedIn(o, |t|) && DistinctKinds(o) && i < |o|
    ensures Cut(t, o, found).Get(o[i].0) == Strip(SpansFrom(t, o, 0)[i])
  {
    SpansAt(t, o, 0, i);
    assert IndexOf(o, o[i].0) == Some(i);
  }

  /**
   * With at least one boundary, the text is the header's raw piece followed by
   * the raw piece of each boundary in offset order; each piece is empty or
   * begins with the `'\n'` its marker matched on; the header and every
   * section found are those pieces stripped.
   */
  lemma {:induction false} CutTiles(t: string, o: seq<(Kind, nat)>, found: seq<Kind>)
    requires OrderedIn(o, |t|) && DistinctKinds(o) && o != []
    requires forall p :: p in o ==> p.1 < |t| && t[p.1] == '\n'
    ensures t == t[..o[0].1] + Concat(SpansFrom(t, o, 0))
    ensures Cut(t, o, found).enTete == Strip(t[..o[0].1])
    ensures forall i :: 0 <= i < |o| ==> SpansFrom(t, o, 0)[i] == [] || SpansFrom(t, o, 0)[i][0] == '\n'
    ensures forall i :: 0 <= i < |o| ==> Cut(t, o, found).Get(o[i].0) == Strip(SpansFrom(t, o, 0)[i])
  {
    SpansCover(t, o, 0);
    assert t[..o[0].1] + t[o[0].1..] == t;
    forall i | 0 <= i < |o|
      ensures SpansFrom(t, o, 0)[i] == [] || SpansFrom(t, o, 0)[i][0] == '\n'
      ensures Cut(t, o, found).Get(o[i].0) == Strip(SpansFrom(t, o, 0)[i])
    {
      assert o[i] in o;
      SpanOpensLine(t, o, i);
      CutAt(t, o, found, i);
    }
  }

  /** The raw piece of `o[i]` starts at its boundary, a `'\n'` of the text. */
  lemma SpanOpensLine(t: string, o: seq<(Kind, nat)>, i: nat)
    requires OrderedIn(o, |t|) && i < |o| && o[i].1 < |t| && t[o[i].1] == '\n'
    ensures SpansFrom(t, o, 0)[i] == [] || SpansFrom(t, o, 0)[i][0] == '\n'
  {
    SpansAt(t, o, 0, i);
    PieceOpens(t, o[i].1, EndOf(o, i, |t|));
  }

  lemma PieceOpens(t: string, a: nat, b: nat)
    requires a <= b <= |t| && a < |t| && t[a] == '\n'
    ensures t[a..b] == [] || t[a..b][0] == '\n'
  {
  }

  /** `CutTiles` for the splitter's own boundaries. */
  lemma {:induction false} SegmentationTiles(texte: string, engine: Engine, cat: seq<Entry>)
    requires RankedCatalogue(cat) && SoundOn(engine, Normalise(texte), cat)
    requires Ordered(engine, Normalise(texte), cat) != []
    ensures var t := Normalise(texte);
            var o := Ordered(engine, t, cat);
            && OrderedIn(o, |t|)
            && t == t[..o[0].1] + Concat(SpansFrom(t, o, 0))
            && Segmentation(texte, engine, cat).enTete == Strip(t[..o[0].1])
            && (forall i :: 0 <= i < |o| ==> SpansFrom(t, o, 0)[i] == [] || SpansFrom(t, o, 0)[i][0] == '\n')
            && (forall i :: 0 <= i < |o| ==>
                  Segmentation(texte, engine, cat).Get(o[i].0) == Strip(SpansFrom(t, o, 0)[i]))
  {
    var t := Normalise(texte);
    var o := Ordered(engine, t, cat);
    OrderedSpec(engine, t, cat);
    PositionsSpec(engine, t, cat);
    CutTiles(t, o, Kinds(Positions(engine, t, cat)));
  }

  /**
   * `decouper_conclusions`: normalise the line endings, find one boundary per
   * kind by scanning the catalogue, sort the boundaries by offset, and cut the
   * text between consecutive boundaries.
   */
  method DecouperConclusions(texte: string, engine: Engine) returns (r: Sections)
    requires EngineSound(engine, Normalise(texte))
    ensures r == Decoupage(texte, engine)
  {
    CatalogueInRankOrder();
    r := SegmentWith(texte, engine, Catalogue);
  }

  /** The splitter run over the catalogue `cat`. */
  method SegmentWith(texte: string, engine: Engine, cat: seq<Entry>) returns (r: Sections)
    requires RankedCatalogue(cat) && SoundOn(engine, Normalise(texte), cat)
    ensures r == Segmentation(texte, engine, cat)
  {
    var t := Normalise(texte);
    var positions := ScanCatalogue(t, engine, cat);
    var ordered := SortByOffset(positions);
    OrderedSpec(engine, t, cat);
    r := CutSections(t, ordered, Kinds(positions));
  }

  /** The slicing loop: each section runs from its boundary to the next one, or to the end. */
  method CutSections(t: string, ordered: seq<(Kind, nat)>, found: seq<Kind>) returns (r: Sections)
    requires OrderedIn(ordered, |t|) && DistinctKinds(ordered)
    ensures r == Cut(t, ordered, found)
  {
    r := Sections([], [], [], [], [], found);
    if ordered == [] {
      r := r.(enTete := Strip(t));
      return;
    }
    r := r.(enTete := Strip(t[..ordered[0].1]));
    ghost var base := r;
    ghost var texts := seq(|ordered|, j requires 0 <= j < |ordered| => SpanText(t, ordered, j));
    assert forall j :: 0 <= j < |ordered| ==> texts[j] == SpanText(t, ordered, j);
    var i := 0;
    while i < |ordered|
      invariant 0 <= i <= |ordered|
      invariant r == Filled(ordered, texts, i, base)
    {
      var end := if i + 1 < |ordered| then ordered[i + 1].1 else |t|;
      assert texts[i] == Strip(t[ordered[i].1..end]);
      r := r.Set(ordered[i].0, Strip(t[ordered[i].1..end]));
      i := i + 1;
    }
    FilledCut(t, ordered, found, texts, base);
  }

  /** Writing every stripped span into the header-only sections gives `Cut`. */
  lemma FilledCut(t: string, o: seq<(Kind, nat)>, found: seq<Kind>, texts: seq<string>, base: Sections)
    requires OrderedIn(o, |t|) && DistinctKinds(o) && o != [] && |texts| == |o|
    requires forall j :: 0 <= j < |o| ==> texts[j] == SpanText(t, o, j)
    requires base == Sections(Strip(t[..o[0].1]), [], [], [], [], found)
    ensures Filled(o, texts, |o|, base) == Cut(t, o, found)
  {
    var r := Filled(o, texts, |o|, base);
    FilledFrame(o, texts, |o|, base);
    forall k ensures r.Get(k) == SectionText(t, o, k) {
      SectionFilled(t, o, texts, base, k);
    }
    CutFields(t, o, found, r);
  }

  /** Sections with `Cut`'s header, kinds found and texts are `Cut`'s. */
  lemma CutFields(t: string, o: seq<(Kind, nat)>, found: seq<Kind>, r: Sections)
    requires OrderedIn(o, |t|) && o != []
    requires r.enTete == Strip(t[..o[0].1]) && r.found == found
    requires forall k :: r.Get(k) == SectionText(t, o, k)
    ensures r == Cut(t, o, found)
  {
    assert r.faits == r.Get(Faits);
    assert r.moyens == r.Get(Moyens);
    assert r.pretentions == r.Get(Pretentions);
    assert r.pieces == r.Get(Pieces);
  }

  /** Once every boundary has written its stripped span, section `k` holds its text. */
  lemma SectionFilled(t: string, o: seq<(Kind, nat)>, texts: seq<string>, base: Sections, k: Kind)
    requires OrderedIn(o, |t|) && DistinctKinds(o) && |texts| == |o|
    requires forall j :: 0 <= j < |o| ==> texts[j] == SpanText(t, o, j)
    requires forall k' :: base.Get(k') == []
    ensures Filled(o, texts, |o|, base).Get(k) == SectionText(t, o, k)
  {
    FilledSpec(o, texts, |o|, base, k);
  }

  /**
   * The `positions` loop: for each kind, the patterns in order until one
   * matches; its last match for `pretentions`, its first otherwise.
   */
  method ScanCatalogue(t: string, engine: Engine, cat: seq<Entry>) returns (positions: seq<(Kind, nat)>)
    ensures positions == Positions(engine, t, cat)
  {
    positions := [];
    var e := 0;
    while e < |cat|
      invariant 0 <= e <= |cat|
      invariant positions == Positions(engine, t, cat[..e])
    {
      var entry := cat[e];
      PrefixStep(cat, e);
      var j := 0;
      while j < |entry.patterns|
        invariant 0 <= j <= |entry.patterns|
        invariant FirstMatching(engine, t, entry.patterns) == FirstMatching(engine, t, entry.patterns[j..])
        invariant positions == Positions(engine, t, cat[..e])
      {
        assert entry.patterns[j..][1..] == entry.patterns[j + 1..];
        var matches := engine(entry.patterns[j], t);
        if matches != [] {
          if entry.kind == Pretentions {
            positions := positions + [(entry.kind, matches[|matches| - 1])];
          } else {
            positions := positions + [(entry.kind, matches[0])];
          }
          break;
        }
        j := j + 1;
      }
      assert positions == Positions(engine, t, cat[..e + 1]);
      e := e + 1;
    }
    WholePrefix(cat);
  }
}
