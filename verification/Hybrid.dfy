/**
 * The hybrid splitter (amelioration_resume_test.py, `decouper_conclusions_hybride`):
 * the regular-expression splitter first; when one of the sections needed for a
 * summary (`faits`, `moyens`, `pretentions`) is missing and the fallback is
 * enabled, a resolver (the language model) is asked where the missing sections
 * start, and each one it places is cut from that start to the next known
 * section or to the end of the text.
 *
 * The resolver is a parameter: it either raises, or returns for some of the
 * missing kinds the start offset it gave (`None` when it gave `null` or no
 * `debut`). The `methode` tag is returned beside the sections.
 */
module Hybrid {
  import opened Wrappers
  import opened Text
  import opened Segmenter

  /** The `methode` tag: `'regex'`, `'hybride'` or `'regex_partiel'`. */
  datatype Methode = Regex | Hybride | RegexPartiel

  /** What the fallback call did: raised, or returned a start per section it placed. */
  datatype Resolution = Raised | Returned(starts: map<Kind, Option<int>>)

  /** The fallback: `(texte, sections_manquantes)` to its answer. */
  type Resolver = (string, seq<Kind>) -> Resolution

  /** `sections_requises`. */
  const Required: seq<Kind> := [Faits, Moyens, Pretentions]

  /** The kinds of `ks` that are not in `found`, in the order of `ks`. */
  function Absent(ks: seq<Kind>, found: seq<Kind>): (m: seq<Kind>)
    ensures forall k :: k in m <==> k in ks && k !in found
    ensures |m| <= |ks|
  {
    if ks == [] then []
    else (if ks[0] in found then [] else [ks[0]]) + Absent(ks[1..], found)
  }

  /** Kinds in strictly increasing catalogue order. */
  predicate RankSorted(ks: seq<Kind>) {
    forall i, j :: 0 <= i < j < |ks| ==> Rank(ks[i]) < Rank(ks[j])
  }

  lemma {:induction false} AbsentOrdered(ks: seq<Kind>, found: seq<Kind>)
    requires RankSorted(ks)
    ensures RankSorted(Absent(ks, found))
  {
    if ks != [] {
      var tail := ks[1..];
      assert RankSorted(tail) by {
        assert forall i :: 0 <= i < |tail| ==> tail[i] == ks[i + 1];
      }
      AbsentOrdered(tail, found);
      var rest := Absent(tail, found);
      if ks[0] !in found {
        forall k | k in rest ensures Rank(ks[0]) < Rank(k) {
          var j :| 0 <= j < |tail| && tail[j] == k;
          assert tail[j] == ks[j + 1];
        }
        RankSortedCons(ks[0], rest);
      }
    }
  }

  lemma RankSortedCons(x: Kind, rest: seq<Kind>)
    requires RankSorted(rest) && forall k :: k in rest ==> Rank(x) < Rank(k)
    ensures RankSorted([x] + rest)
  {
    var m := [x] + rest;
    forall i, j | 0 <= i < j < |m| ensures Rank(m[i]) < Rank(m[j]) {
      assert m[j] == rest[j - 1] && rest[j - 1] in rest;
      if i > 0 {
        assert m[i] == rest[i - 1];
      }
    }
  }

  /**
   * `sections_manquantes`: the required kinds the regular expressions did not
   * find, in the order `faits`, `moyens`, `pretentions`, each once.
   */
  function Missing(found: seq<Kind>): (m: seq<Kind>)
    ensures forall k :: k in m <==> k in Required && k !in found
    ensures RankSorted(m)
  {
    AbsentOrdered(Required, found);
    Absent(Required, found)
  }

  /** `resultat[s][:50]`. */
  function Head(s: string): (h: string)
    ensures |h| <= 50 && h <= s
    ensures |s| <= 50 ==> h == s
    ensures |s| > 50 ==> h == s[..50]
  {
    if |s| <= 50 then s else s[..50]
  }

  /** Where the literal search for the head of section `k` finds it in `texte`, if it is non-empty. */
  function LocateSection(r: Sections, texte: string, k: Kind): Option<nat> {
    if r.Get(k) != [] then Find(Head(r.Get(k)), texte) else None
  }

  /** `positions_connues` after the required kinds `ks`, in their order. */
  function Known(r: Sections, texte: string, ks: seq<Kind>): seq<nat> {
    if ks == [] then []
    else
      Known(r, texte, ks[..|ks| - 1]) +
      (match LocateSection(r, texte, ks[|ks| - 1])
       case None => []
       case Some(p) => [p])
  }

  /** The smallest position of `known` above `debut`, if there is one. */
  function MinAbove(known: seq<nat>, debut: int): (m: Option<nat>)
    ensures m.Some? ==> m.value in known && m.value > debut
    ensures m.Some? ==> forall p :: p in known && p > debut ==> m.value <= p
    ensures m.None? ==> forall p :: p in known ==> p <= debut
  {
    if known == [] then None
    else
      var rest := MinAbove(known[1..], debut);
      assert forall p :: p in known ==> p == known[0] || p in known[1..];
      if known[0] > debut && (rest.None? || known[0] < rest.value) then Some(known[0])
      else rest
  }

  /** `fin`: the first known position after `debut`, or the end of the text. */
  function EndAfter(known: seq<nat>, debut: int, n: nat): int {
    match MinAbove(known, debut)
    case None => n
    case Some(p) => p
  }

  /** The known positions are where the heads of the kinds of `ks` were found. */
  lemma {:induction false} KnownMembers(r: Sections, texte: string, ks: seq<Kind>, p: nat)
    ensures p in Known(r, texte, ks) <==> exists k :: k in ks && LocateSection(r, texte, k) == Some(p)
  {
    if ks != [] {
      var init := ks[..|ks| - 1];
      KnownMembers(r, texte, init, p);
      assert forall k :: k in ks <==> k in init || k == ks[|ks| - 1];
    }
  }

  /** Every position the search finds is a position inside the text. */
  lemma {:induction false} KnownInText(r: Sections, texte: string, ks: seq<Kind>)
    ensures forall p :: p in Known(r, texte, ks) ==> p < |texte|
  {
    forall p | p in Known(r, texte, ks) ensures p < |texte| {
      KnownMembers(r, texte, ks, p);
      var k :| k in ks && LocateSection(r, texte, k) == Some(p);
      assert OccursAt(Head(r.Get(k)), texte, p);
    }
  }

  /**
   * `text` is the stripped slice of `texte` from `debut` to `fin`, and `fin` is
   * the end of the text or a position of the text after `debut`.
   */
  predicate FillsTo(texte: string, debut: int, fin: int, text: string) {
    (fin == |texte| || debut < fin < |texte|) && text == Strip(PySlice(texte, debut, fin))
  }

  /**
   * `fin` is the least of `known` strictly above `debut`, or `n` when no
   * position of `known` is above `debut`.
   */
  predicate CutOff(known: seq<nat>, debut: int, n: nat, fin: int) {
    || (fin == n && forall p :: p in known ==> p <= debut)
    || (fin in known && fin > debut && forall p :: p in known && p > debut ==> fin <= p)
  }

  /** One round of the merge loop, for the missing kind `k`. */
  function MergeOne(texte: string, r: Sections, k: Kind, starts: map<Kind, Option<int>>): (r': Sections)
    ensures r'.enTete == r.enTete
    ensures forall k' :: k' != k ==> r'.Get(k') == r.Get(k')
    ensures !(k in starts && starts[k].Some?) ==> r' == r
    ensures k in starts && starts[k].Some? ==>
      r'.found == r.found + (if k in r.found then [] else [k])
    ensures k in starts && starts[k].Some? ==>
      exists fin :: CutOff(Known(r, texte, Required), starts[k].value, |texte|, fin)
        && r'.Get(k) == Strip(PySlice(texte, starts[k].value, fin))
  {
    if k in starts && starts[k].Some? then
      var debut := starts[k].value;
      var fin := EndAfter(Known(r, texte, Required), debut, |texte|);
      assert CutOff(Known(r, texte, Required), debut, |texte|, fin);
      var r1 := r.Set(k, Strip(PySlice(texte, debut, fin)));
      if k in r1.found then r1 else r1.(found := r1.found + [k])
    else r
  }

  /** The cut-off is determined by the known positions and the start. */
  lemma CutOffUnique(known: seq<nat>, debut: int, n: nat, fin: int, fin': int)
    requires CutOff(known, debut, n, fin) && CutOff(known, debut, n, fin')
    ensures fin == fin'
  {
  }

  /** The merge loop over the missing kinds `ks`, in order. */
  function MergeAll(texte: string, r: Sections, ks: seq<Kind>, starts: map<Kind, Option<int>>): (r': Sections)
    ensures r'.enTete == r.enTete
  {
    if ks == [] then r
    else MergeOne(texte, MergeAll(texte, r, ks[..|ks| - 1], starts), ks[|ks| - 1], starts)
  }

  /** The kinds of `ks` the resolver gave a start for, in the order of `ks`. */
  function Placed(ks: seq<Kind>, starts: map<Kind, Option<int>>): (ps: seq<Kind>)
    ensures forall k :: k in ps <==> k in ks && k in starts && starts[k].Some?
  {
    if ks == [] then []
    else
      var k := ks[|ks| - 1];
      Placed(ks[..|ks| - 1], starts) + (if k in starts && starts[k].Some? then [k] else [])
  }

  /**
   * What `decouper_conclusions_hybride(texte, utiliser_llm_fallback)` returns
   * when the splitter's catalogue is `cat`.
   */
  function Hybridation(texte: string, engine: Engine, cat: seq<Entry>, fallback: bool, resolver: Resolver): (Sections, Methode)
    requires RankedCatalogue(cat) && SoundOn(engine, Normalise(texte), cat)
  {
    var seg := Segmentation(texte, engine, cat);
    var missing := Missing(seg.found);
    if missing == [] then (seg, Regex)
    else if !fallback then (seg, RegexPartiel)
    else match resolver(texte, missing)
      case Raised => (seg, RegexPartiel)
      case Returned(starts) => (MergeAll(texte, seg, missing, starts), Hybride)
  }

  /** What `decouper_conclusions_hybride` returns, with the source's own catalogue. */
  function DecoupageHybride(texte: string, engine: Engine, fallback: bool, resolver: Resolver): (Sections, Methode)
    requires EngineSound(engine, Normalise(texte))
  {
    CatalogueInRankOrder();
    Hybridation(texte, engine, Catalogue, fallback, resolver)
  }

  // ---------------------------------------------------------------------------
  // What the merge promises
  // ---------------------------------------------------------------------------

  /**
   * A kind not in the merge list keeps its text, and so does a kind the
   * resolver gave no start for; the header never changes.
   */
  lemma {:induction false} MergeAllKeeps(texte: string, r: Sections, ks: seq<Kind>, starts: map<Kind, Option<int>>, k: Kind)
    requires k !in ks || k !in starts || starts[k].None?
    ensures MergeAll(texte, r, ks, starts).Get(k) == r.Get(k)
  {
    if ks != [] {
      MergeAllKeeps(texte, r, ks[..|ks| - 1], starts, k);
    }
  }

  /**
   * The merge appends the placed kinds to `sections_trouvees`, once each and
   * in merge order, when none of them was listed before.
   */
  lemma {:induction false} MergeAllFound(texte: string, r: Sections, ks: seq<Kind>, starts: map<Kind, Option<int>>)
    requires Distinct(ks)
    requires forall k :: k in ks ==> k !in r.found
    ensures MergeAll(texte, r, ks, starts).found == r.found + Placed(ks, starts)
  {
    if ks != [] {
      var init := ks[..|ks| - 1];
      var k := ks[|ks| - 1];
      DistinctInit(ks);
      assert forall k' :: k' in init ==> k' in ks;
      MergeAllFound(texte, r, init, starts);
      var prev := MergeAll(texte, r, init, starts);
      assert k !in Placed(init, starts);
      assert k !in prev.found;
      assert MergeAll(texte, r, ks, starts) == MergeOne(texte, prev, k, starts);
      if k in starts && starts[k].Some? {
        assert Placed(ks, starts) == Placed(init, starts) + [k];
        AppendAssoc(r.found, Placed(init, starts), [k]);
      } else {
        assert Placed(ks, starts) == Placed(init, starts);
      }
    }
  }

  /** Each kind at most once. */
  predicate Distinct(ks: seq<Kind>) {
    forall i, j :: 0 <= i < j < |ks| ==> ks[i] != ks[j]
  }

  lemma DistinctInit(ks: seq<Kind>)
    requires Distinct(ks) && ks != []
    ensures Distinct(ks[..|ks| - 1]) && ks[|ks| - 1] !in ks[..|ks| - 1]
  {
  }

  /**
   * A placed kind gets the stripped slice of the text from its start to a
   * cut-off that is either the end of the text or a position after the start
   * (where an already known section was found); later rounds do not touch it.
   */
  lemma {:induction false} MergeAllFills(texte: string, r: Sections, ks: seq<Kind>, starts: map<Kind, Option<int>>, k: Kind)
    requires Distinct(ks)
    requires k in ks && k in starts && starts[k].Some?
    ensures exists fin :: FillsTo(texte, starts[k].value, fin, MergeAll(texte, r, ks, starts).Get(k))
  {
    var init := ks[..|ks| - 1];
    var prev := MergeAll(texte, r, init, starts);
    if ks[|ks| - 1] == k {
      var known := Known(prev, texte, Required);
      var fin := EndAfter(known, starts[k].value, |texte|);
      KnownInText(prev, texte, Required);
      assert FillsTo(texte, starts[k].value, fin, MergeAll(texte, r, ks, starts).Get(k));
    } else {
      assert k in init;
      DistinctInit(ks);
      MergeAllFills(texte, r, init, starts, k);
      var fin :| FillsTo(texte, starts[k].value, fin, prev.Get(k));
      assert MergeAll(texte, r, ks, starts).Get(k) == prev.Get(k);
    }
  }

  // ---------------------------------------------------------------------------
  // What the hybrid splitter promises
  // ---------------------------------------------------------------------------

  /**
   * A required kind is missing exactly when none of its patterns matched the
   * normalised text.
   */
  lemma {:induction false} MissingSpec(texte: string, engine: Engine, cat: seq<Entry>, k: Kind)
    requires RankedCatalogue(cat) && SoundOn(engine, Normalise(texte), cat) && |cat| == 4
    ensures k in Missing(Segmentation(texte, engine, cat).found) <==>
      k in Required && Boundary(engine, Normalise(texte), cat[Rank(k)]).None?
  {
    SegmentationFound(texte, engine, cat, k);
  }

  /**
   * The tag: `'regex'` exactly when nothing required is missing; `'hybride'`
   * exactly when something is missing, the fallback is on and the resolver
   * returned; `'regex_partiel'` otherwise, and then the regex result is
   * returned unchanged.
   */
  lemma {:induction false} HybrideTag(texte: string, engine: Engine, cat: seq<Entry>, fallback: bool, resolver: Resolver)
    requires RankedCatalogue(cat) && SoundOn(engine, Normalise(texte), cat)
    ensures var seg := Segmentation(texte, engine, cat);
            var missing := Missing(seg.found);
            var (r, m) := Hybridation(texte, engine, cat, fallback, resolver);
            && (m == Regex <==> missing == [])
            && (m == Hybride <==> missing != [] && fallback && resolver(texte, missing).Returned?)
            && (m != Hybride ==> r == seg)
  {
  }

  lemma SortedDistinct(ks: seq<Kind>)
    requires RankSorted(ks)
    ensures Distinct(ks)
  {
    forall i, j | 0 <= i < j < |ks| ensures ks[i] != ks[j] {
      assert Rank(ks[i]) < Rank(ks[j]);
    }
  }

  /** The merge's promises together, for kinds `ks` listed once each and none of them found yet. */
  lemma {:induction false} MergeResult(texte: string, seg: Sections, ks: seq<Kind>, starts: map<Kind, Option<int>>, k: Kind)
    requires Distinct(ks)
    requires forall k' :: k' in ks ==> k' !in seg.found
    ensures var r := MergeAll(texte, seg, ks, starts);
            && r.enTete == seg.enTete
            && (k !in Placed(ks, starts) ==> r.Get(k) == seg.Get(k))
            && r.found == seg.found + Placed(ks, starts)
            && (k in Placed(ks, starts) ==> exists fin :: FillsTo(texte, starts[k].value, fin, r.Get(k)))
  {
    MergeAllFound(texte, seg, ks, starts);
    if k in Placed(ks, starts) {
      MergeAllFills(texte, seg, ks, starts, k);
    }
    if k !in Placed(ks, starts) {
      MergeAllKeeps(texte, seg, ks, starts, k);
    }
  }

  /**
   * Whatever the fallback does: the header and every kind that is not missing
   * keep the regex text; with the tag `'hybride'`, `sections_trouvees` is the
   * regex list followed by the kinds the resolver placed, a missing kind it
   * did not place stays `''`, and a placed kind is the stripped slice from its
   * start to the end of the text or to a later position.
   */
  lemma {:induction false} HybrideResult(texte: string, engine: Engine, cat: seq<Entry>, fallback: bool, resolver: Resolver, k: Kind)
    requires RankedCatalogue(cat) && SoundOn(engine, Normalise(texte), cat)
    ensures var seg := Segmentation(texte, engine, cat);
            var missing := Missing(seg.found);
            var (r, m) := Hybridation(texte, engine, cat, fallback, resolver);
            && r.enTete == seg.enTete
            && (k !in missing ==> r.Get(k) == seg.Get(k))
            && (m == Hybride ==> r.found == seg.found + Placed(missing, resolver(texte, missing).starts))
            && (m == Hybride && k in missing && k !in Placed(missing, resolver(texte, missing).starts) ==>
                  r.Get(k) == [])
            && (m == Hybride && k in Placed(missing, resolver(texte, missing).starts) ==>
                  exists fin :: FillsTo(texte, resolver(texte, missing).starts[k].value, fin, r.Get(k)))
  {
    var seg := Segmentation(texte, engine, cat);
    var missing := Missing(seg.found);
    SegmentationFound(texte, engine, cat, k);
    if missing != [] && fallback && resolver(texte, missing).Returned? {
      var starts := resolver(texte, missing).starts;
      SortedDistinct(missing);
      MergeResult(texte, seg, missing, starts, k);
    }
  }

  // ---------------------------------------------------------------------------
  // The procedure
  // ---------------------------------------------------------------------------

  /** The `positions_connues` loop. */
  method PositionsConnues(r: Sections, texte: string) returns (ps: seq<nat>)
    ensures ps == Known(r, texte, Required)
  {
    ps := [];
    var i := 0;
    while i < |Required|
      invariant 0 <= i <= |Required|
      invariant ps == Known(r, texte, Required[..i])
    {
      var s := Required[i];
      assert Required[..i + 1][..i] == Required[..i];
      if r.Get(s) != [] {
        var found := Find(Head(r.Get(s)), texte);
        if found.Some? {
          ps := ps + [found.value];
        }
      }
      i := i + 1;
    }
    assert Required[..|Required|] == Required;
  }

  /**
   * `decouper_conclusions_hybride`: the regex split; then, if a required
   * section is missing and the fallback is on, the resolver's starts merged
   * one missing kind at a time.
   */
  method DecouperConclusionsHybride(texte: string, engine: Engine, fallback: bool, resolver: Resolver)
    returns (r: Sections, m: Methode)
    requires EngineSound(engine, Normalise(texte))
    ensures (r, m) == DecoupageHybride(texte, engine, fallback, resolver)
  {
    CatalogueInRankOrder();
    r, m := HybridWith(texte, engine, Catalogue, fallback, resolver);
  }

  /** The hybrid splitter over the catalogue `cat`. */
  method HybridWith(texte: string, engine: Engine, cat: seq<Entry>, fallback: bool, resolver: Resolver)
    returns (r: Sections, m: Methode)
    requires RankedCatalogue(cat) && SoundOn(engine, Normalise(texte), cat)
    ensures (r, m) == Hybridation(texte, engine, cat, fallback, resolver)
  {
    r := SegmentWith(texte, engine, cat);
    var missing := Missing(r.found);
    if missing == [] {
      return r, Regex;
    }
    if !fallback {
      return r, RegexPartiel;
    }
    var answer := resolver(texte, missing);
    if answer.Raised? {
      return r, RegexPartiel;
    }
    r := Fusionner(texte, r, missing, answer.starts);
    m := Hybride;
  }

  /** The merge loop: each missing kind the resolver placed, cut and listed, in order. */
  method Fusionner(texte: string, seg: Sections, missing: seq<Kind>, starts: map<Kind, Option<int>>)
    returns (r: Sections)
    ensures r == MergeAll(texte, seg, missing, starts)
  {
    r := seg;
    var i := 0;
    while i < |missing|
      invariant 0 <= i <= |missing|
      invariant r == MergeAll(texte, seg, missing[..i], starts)
    {
      var section := missing[i];
      assert missing[..i + 1][..i] == missing[..i];
      if section in starts && starts[section].Some? {
        var debut := starts[section].value;
        var known := PositionsConnues(r, texte);
        var fin := EndAfter(known, debut, |texte|);
        r := r.Set(section, Strip(PySlice(texte, debut, fin)));
        if section !in r.found {
          r := r.(found := r.found + [section]);
        }
      }
      i := i + 1;
    }
    assert missing[..|missing|] == missing;
  }
}
