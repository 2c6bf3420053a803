# Conclusion segmenter, hybrid merge and fragment fingerprints

A Dafny model of the deterministic core of a tool that summarises French legal
briefs ("conclusions"):

- **Segmenter** (`decouper_conclusions`): normalises line endings and looks for
  the start of each section (`faits`, `moyens`, `pretentions`, `pieces`) with an
  ordered catalogue of marker patterns. The first pattern of a kind that matches
  anywhere decides; its first match is used, except for `pretentions`, where its
  last match is used. The boundaries are then sorted by offset (a stable sort, so
  ties keep catalogue order), and the text is cut into the header (`en_tete`) and
  one stripped span per section found.
- **Hybrid splitter** (`decouper_conclusions_hybride`): runs the segmenter. When a
  required section (`faits`, `moyens`, `pretentions`) is missing and the fallback
  is on, it asks a resolver for the start of each missing section. Each placed
  section is cut from its start to the nearest "known" position after it, or to
  the end of the text. The result is tagged `regex`, `hybride` or `regex_partiel`.
- **Summary helpers**: `extraire_info_entete` (cleans the header lines),
  `assembler_resume` (assembles the final markdown summary) and the two
  code-fence cleaners applied to language-model answers.
- **Fingerprints** (`analyse/scripts/post_traitement.py`):
  - `extraire_fragments` collapses whitespace and cuts short fragments (lengths
    30, 40, 50, 60, 80 every 50 characters below 500) and long fragments (every
    100 characters below 800). It keeps those more than 40% made of letters,
    digits and Latin-1 letters.
  - `identifier_dossier` returns the dossier owning the longest fragment found in
    a question.

Modules:

| file | module | models |
|---|---|---|
| `Wrappers.dfy` | `Wrappers` | `Option` |
| `Text.dfy` | `Text` | the Python `str` operations used: `isspace`, `strip`, `split`, `join`, `find`, `replace`, slicing |
| `Segmenter.dfy` | `Segmenter` | `decouper_conclusions` |
| `Hybrid.dfy` | `Hybrid` | `decouper_conclusions_hybride` |
| `Summary.dfy` | `Summary` | `extraire_info_entete`, `assembler_resume`, the fence cleaners |
| `Fingerprint.dfy` | `Fingerprint` | `extraire_fragments`, `identifier_dossier` |

The regular-expression engine is a parameter, `Engine`: a function from a
pattern and a text to the ascending start offsets of the pattern's matches (what
`re.finditer` yields; `re.search` is the first of them). The catalogue keeps the
source's patterns, in the source's order, as data. Every pattern starts with
`\n`. The precondition `EngineSound` on the normalised text states what `re`
guarantees of those patterns: the offsets are strictly ascending, inside the
text, and at a `'\n'`.

Imperative code follows the source's form: `DecouperConclusions`,
`DecouperConclusionsHybride`, `Fusionner`, `ExtraireFragments` and
`IdentifierDossier` are methods with loops. Each is proved equal to a
specification function, or states its result outright, and the properties are
proved about those functions as lemmas.

Behaviour of the merge worth knowing, as the code has it:

- The `hybride` tag is given whenever the resolver returns, even when it placed
  no section (amelioration_resume_test.py:314-338).
- The end of a merged section is found by re-searching the first 50 characters
  of each non-empty required section in the text (amelioration_resume_test.py:321-331).
  It is not taken from the boundary offsets of the split, and `pieces` is never an end.
- The merge slices the raw text (`texte`), not the normalised one
  (amelioration_resume_test.py:325, 333).
- A start offset outside the text is not dropped. It follows Python slicing: a
  negative offset counts from the end, and an offset past the end gives an empty
  section that is still marked as found.

## Model

| member | source | states |
|---|---|---|
| Text.TrimStart | amelioration_resume_test.py:576 | `lstrip` gives a suffix of the input that is empty or starts with a non-space |
| Text.TrimEnd | amelioration_resume_test.py:576 | `rstrip` gives a prefix of the input that is empty or ends with a non-space |
| Text.Strip | amelioration_resume_test.py:574-576 | `strip` is no longer than its input and is empty or bounded by non-whitespace on both sides |
| Text.StripWindow | amelioration_resume_test.py:574-576 | the stripped string is a window of the input with only whitespace cut off on either side |
| Text.StripTrims | amelioration_resume_test.py:574-576 | `strip` is `rstrip` after `lstrip` |
| Text.StripIdempotent | amelioration_resume_test.py:576 | stripping twice is stripping once |
| Text.StripEmptyIffBlank | amelioration_resume_test.py:576 | a line is dropped by `if l.strip()` exactly when all its characters are whitespace |
| Text.Split | amelioration_resume_test.py:574 | `split` always gives at least one piece |
| Text.JoinSplit | amelioration_resume_test.py:574-577 | joining the pieces of a split with the separator gives the text back |
| Text.SplitJoin | amelioration_resume_test.py:577 | splitting a join of separator-free pieces gives the pieces back |
| Text.SplitPieces | amelioration_resume_test.py:574 | no piece of a split contains the separator |
| Text.SplitConcat | amelioration_resume_test.py:567 | the pieces of `a + sep + b` are the pieces of `a` then those of `b` |
| Text.JoinAppend | amelioration_resume_test.py:567 | joining `xs + ys` is joining each and gluing them with the separator |
| Text.Find | amelioration_resume_test.py:325 | the first occurrence of a literal: it occurs there, nowhere earlier, and `None` means nowhere |
| Text.SliceIndexLaws | amelioration_resume_test.py:333 | a slice index in range is itself; `i - n` names the same place as `i`; past the end is the end; at or before `-n` is the start; monotone on each side of 0 |
| Text.PySlice | amelioration_resume_test.py:333 | `s[a:b]` has length `max(0, hi - lo)` of the clamped indices, its `k`-th character is `s[lo + k]`, and in range it is `s[a..b]` |
| Text.PySliceConcat | amelioration_resume_test.py:333 | adjacent in-range slices concatenate to the slice over both |
| Text.PySliceBounds | amelioration_resume_test.py:333 | a negative start `a - len` slices as `a`; a stop past the end slices as the end; a start at or past the end gives `''` |
| Segmenter.CatalogueInRankOrder | amelioration_resume_test.py:44-95 | the catalogue has four entries, in the order `faits`, `moyens`, `pretentions`, `pieces` |
| Segmenter.NormaliseSpec | amelioration_resume_test.py:39 | after normalisation no `'\r'` is left; it is one left-to-right pass; plain text is unchanged; it is idempotent |
| Segmenter.NormaliseIsOnePass | amelioration_resume_test.py:39 | the two `replace` calls turn each `"\r\n"` and each lone `'\r'` into exactly one `'\n'` |
| Segmenter.FirstMatchingAt | amelioration_resume_test.py:100-114 | the first pattern with a match decides, with its own matches |
| Segmenter.FirstMatchingNone | amelioration_resume_test.py:100-114 | no pattern decides exactly when no pattern of the kind matches |
| Segmenter.LaterPatternsIgnored | amelioration_resume_test.py:100-114 | patterns after the first matching one are never consulted |
| Segmenter.BoundaryRule | amelioration_resume_test.py:102-114 | the boundary is a match of the first matching pattern: its last one for `pretentions`, its first one otherwise |
| Segmenter.BoundaryAbsent | amelioration_resume_test.py:100-114 | a kind has no boundary exactly when none of its patterns matches |
| Segmenter.BoundaryInText | amelioration_resume_test.py:44-95 | a boundary lies inside the text, at a `'\n'` |
| Segmenter.PositionsSpec | amelioration_resume_test.py:98-114 | `positions` holds each kind at most once, in catalogue order, exactly with its boundary, and every offset is at a `'\n'` of the text |
| Segmenter.PositionsMembers | amelioration_resume_test.py:98-114 | `(k, b)` is in `positions` exactly when `b` is `k`'s boundary |
| Segmenter.PositionsRanks | amelioration_resume_test.py:98-114 | `positions` lists kinds in strictly increasing catalogue order |
| Segmenter.PositionsInText | amelioration_resume_test.py:98-114 | every recorded offset is inside the text, at a `'\n'` |
| Segmenter.ScanCatalogue | amelioration_resume_test.py:98-114 | the nested search loop with `break` computes `positions` |
| Segmenter.SortByOffsetSpec | amelioration_resume_test.py:117 | the sort is a permutation, ordered by offset with ties in catalogue order |
| Segmenter.OrderedSpec | amelioration_resume_test.py:117 | `sections_ordonnees` is a permutation of `positions`, sorted inside the text, each kind once |
| Segmenter.SpansCover | amelioration_resume_test.py:138-145 | the raw spans from the first boundary on concatenate to the rest of the text |
| Segmenter.SpansAt | amelioration_resume_test.py:138-145 | span `i` runs from boundary `i` to the next boundary or the end |
| Segmenter.FilledSpec | amelioration_resume_test.py:138-145 | after the loop, each kind holds its span's text and the others keep their value |
| Segmenter.CutAbsent | amelioration_resume_test.py:120-135 | a kind without a boundary stays `''`; with no boundary at all the header is the whole stripped text |
| Segmenter.CutAt | amelioration_resume_test.py:138-145 | each found kind holds its stripped span |
| Segmenter.CutTiles | amelioration_resume_test.py:130-145 | header slice and spans tile the text exactly, each span opens at a `'\n'`, and each section is its stripped span |
| Segmenter.CutSections | amelioration_resume_test.py:130-145 | the cutting loop computes the cut of the ordered boundaries |
| Segmenter.SegmentationFound | amelioration_resume_test.py:98-135 | `sections_trouvees` holds exactly the kinds with a boundary, in catalogue order; a kind not found is `''`; nothing found makes the header the whole stripped text |
| Segmenter.SegmentationTiles | amelioration_resume_test.py:39-145 | on the normalised text, the header and the spans tile the whole text and each section is its stripped span |
| Segmenter.SegmentWith | amelioration_resume_test.py:39-147 | the procedure over a catalogue computes the segmentation |
| Segmenter.DecouperConclusions | amelioration_resume_test.py:26-147 | `decouper_conclusions` computes the segmentation with the source's catalogue |
| Hybrid.Absent | amelioration_resume_test.py:294 | the kinds of a list not found, and only those |
| Hybrid.AbsentOrdered | amelioration_resume_test.py:294 | the filter keeps the list's order |
| Hybrid.Missing | amelioration_resume_test.py:293-294 | `sections_manquantes` is exactly the required kinds not found, in the order `faits`, `moyens`, `pretentions` |
| Hybrid.MissingSpec | amelioration_resume_test.py:289-294 | a required kind is missing exactly when none of its patterns matches the normalised text |
| Hybrid.Head | amelioration_resume_test.py:325 | `s[:50]` is the whole string when it has at most 50 characters, and exactly its first 50 otherwise |
| Hybrid.KnownMembers | amelioration_resume_test.py:321-327 | a known position is where the head of a non-empty required section first occurs in the text, and each such position is known |
| Hybrid.KnownInText | amelioration_resume_test.py:321-327 | known positions are inside the text |
| Hybrid.PositionsConnues | amelioration_resume_test.py:321-327 | the `positions_connues` loop computes the known positions |
| Hybrid.MinAbove | amelioration_resume_test.py:330-331 | the least known position strictly above `debut`, or none when no position is above it |
| Hybrid.MergeOne | amelioration_resume_test.py:316-335 | one round: only a placed kind changes; it becomes `texte[debut:fin].strip()` with `fin` the least known position above `debut` or the end; it is appended to `sections_trouvees` at most once |
| Hybrid.Placed | amelioration_resume_test.py:316-318 | the kinds with a non-null `debut` |
| Hybrid.MergeAllKeeps | amelioration_resume_test.py:314-335 | the merge changes no kind outside the placed ones, nor the header |
| Hybrid.MergeAllFound | amelioration_resume_test.py:314-335 | `sections_trouvees` gains exactly the placed kinds, in order |
| Hybrid.MergeAllFills | amelioration_resume_test.py:316-333 | each placed kind is the stripped slice from its start to a cut-off that is the end or a position after the start |
| Hybrid.MergeResult | amelioration_resume_test.py:314-335 | the merge's whole effect: header and unplaced kinds unchanged, found list extended by the placed kinds, placed kinds filled |
| Hybrid.Fusionner | amelioration_resume_test.py:314-335 | the merge loop computes the merge |
| Hybrid.HybrideTag | amelioration_resume_test.py:293-342 | `regex` exactly when nothing is missing; `hybride` exactly when something is missing, the fallback is on and the resolver returns; otherwise `regex_partiel`; the regex result is kept unless `hybride` |
| Hybrid.HybrideResult | amelioration_resume_test.py:289-342 | the hybrid result keeps the header and every kind not missing; under `hybride` the found list gains the placed kinds, unplaced missing kinds stay `''`, placed ones are filled |
| Hybrid.HybridWith | amelioration_resume_test.py:289-344 | the procedure over a catalogue computes the hybrid result |
| Hybrid.DecouperConclusionsHybride | amelioration_resume_test.py:275-344 | `decouper_conclusions_hybride` computes the hybrid result with the source's catalogue |
| Summary.CleanLinesClean | amelioration_resume_test.py:576 | the kept lines are non-empty, stripped, one line each |
| Summary.CleanLinesMembers | amelioration_resume_test.py:576 | a line is kept exactly when it is the non-empty strip of an input line |
| Summary.CleanLinesFixed | amelioration_resume_test.py:576 | clean lines are kept as they are |
| Summary.ExtraireInfoLines | amelioration_resume_test.py:570-577 | the digest is empty exactly when no line survives, otherwise its lines are the kept lines; it is stripped |
| Summary.JoinedLines | amelioration_resume_test.py:577 | joining clean lines gives back the lines when split, empty only for no lines |
| Summary.DigestOfCleanLines | amelioration_resume_test.py:570-577 | a digest of clean lines is its own digest |
| Summary.ExtraireInfoIdempotent | amelioration_resume_test.py:570-577 | `extraire_info_entete` is idempotent |
| Summary.TitlesOneLine | amelioration_resume_test.py:550-556 | the fixed titles and the fence are single lines |
| Summary.PartsLines | amelioration_resume_test.py:549-567 | the lines of the joined parts are the fixed lines interleaved with the lines of each variable part |
| Summary.AssemblerLines | amelioration_resume_test.py:538-567 | the summary's lines are the two titles, the fenced header digest, then the `faits`, `moyens`, `pretentions` summaries or their defaults, separated by blank lines |
| Summary.NettoyerJsonPlain | amelioration_resume_test.py:260-265 | an answer not opening with a fence is only stripped |
| Summary.NettoyerJsonFenced | amelioration_resume_test.py:260-265 | a fenced answer, with or without `json` tag, gives back its stripped body |
| Summary.NettoyerJsonBlock | amelioration_resume_test.py:260-265 | a fenced answer is cleaned by taking the text between the fences |
| Summary.UnfenceTagged | amelioration_resume_test.py:261-265 | between the fences, a `json` tag is dropped and the body stripped |
| Summary.UnfenceBlock | amelioration_resume_test.py:261-265 | the part between the first two fences, without a leading `json`, stripped |
| Summary.NettoyerFencePlain | amelioration_resume_test.py:653-662 | a summary not opening with a fence is only stripped: the result is the summary less surrounding whitespace, and cleaning it again changes nothing unless stripping uncovered a fence |
| Summary.NettoyerFenceFenced | amelioration_resume_test.py:653-662 | a summary wrapped in a tagged fence gives back its stripped body |
| Summary.DropFencesBlock | amelioration_resume_test.py:655-660 | an opening fence line and a closing fence line are dropped, and only they |
| Fingerprint.Collapse | analyse/scripts/post_traitement.py:56 | collapsing keeps emptiness and whether the text starts with whitespace |
| Fingerprint.CollapseAppend | analyse/scripts/post_traitement.py:56 | cleaning a text cut after a non-space is cleaning each part |
| Fingerprint.CollapseRunHead | analyse/scripts/post_traitement.py:56 | a whitespace run before a non-space or the end becomes one space |
| Fingerprint.CollapseRun | analyse/scripts/post_traitement.py:56 | every maximal whitespace run becomes exactly one space, in place: `a + w + b` cleans to `clean(a) + " " + clean(b)` |
| Fingerprint.CollapseShape | analyse/scripts/post_traitement.py:56 | the cleaned text has only single spaces as whitespace, never two in a row, and is no longer than the input |
| Fingerprint.CollapseFixed | analyse/scripts/post_traitement.py:56 | a text already collapsed is unchanged |
| Fingerprint.CollapseIdempotent | analyse/scripts/post_traitement.py:56 | cleaning twice is cleaning once |
| Fingerprint.CollapseVisible | analyse/scripts/post_traitement.py:56 | cleaning keeps every non-whitespace character, in order |
| Fingerprint.WordCount | analyse/scripts/post_traitement.py:71 | the number of kept characters in a prefix is at most its length |
| Fingerprint.ShortRows | analyse/scripts/post_traitement.py:66 | `range(0, m, 50)` has enough starts to reach `m` |
| Fingerprint.LongRows | analyse/scripts/post_traitement.py:75 | `range(0, m, 100)` has exactly the starts below `m` |
| Fingerprint.Row | analyse/scripts/post_traitement.py:67-69 | a row's candidates start at the row's start, have a listed length and fit in the text |
| Fingerprint.RowMembers | analyse/scripts/post_traitement.py:67-69 | a row holds exactly the listed lengths that fit |
| Fingerprint.ShortGridMembers | analyse/scripts/post_traitement.py:66-69 | short candidates are exactly the multiples of 50 below the bound with a listed length that fits |
| Fingerprint.LongGridMembers | analyse/scripts/post_traitement.py:75 | long candidates are exactly the multiples of 100 below the bound with length `longueur` |
| Fingerprint.CandidatesSpec | analyse/scripts/post_traitement.py:66-78 | a (start, length) pair is tried exactly when it lies on the short grid below `min(500, len-30)` or the long grid below `min(800, len-longueur)` |
| Fingerprint.InGridFits | analyse/scripts/post_traitement.py:68 | every grid candidate fits in the cleaned text |
| Fingerprint.RowSorted | analyse/scripts/post_traitement.py:67 | a row is in increasing length order |
| Fingerprint.ShortGridSorted | analyse/scripts/post_traitement.py:66-67 | short candidates are tried in (start, length) order |
| Fingerprint.LongGridSorted | analyse/scripts/post_traitement.py:75 | long candidates are tried in start order |
| Fingerprint.KeepMembers | analyse/scripts/post_traitement.py:71-72 | a fragment is kept exactly when it is the slice of a candidate and more than 40% of it is word characters |
| Fingerprint.KeepAppend | analyse/scripts/post_traitement.py:64-78 | keeping the short then long candidates is keeping each list in turn |
| Fingerprint.CleanFragmentsSpec | analyse/scripts/post_traitement.py:58-80 | a short cleaned text gives itself when longer than 20 and nothing otherwise; a longer one gives exactly the dense slices `c[s:s+l]` at grid points with `s + l <= len` |
| Fingerprint.FragmentsSpec | analyse/scripts/post_traitement.py:50-80 | the same, stated on the cleaned input text |
| Fingerprint.FragmentsGrid | analyse/scripts/post_traitement.py:64-78 | the fragments are the kept short candidates followed by the kept long ones |
| Fingerprint.LongKeptKeep | analyse/scripts/post_traitement.py:75-78 | the long loop keeps the long grid, window by window |
| Fingerprint.ScanRow | analyse/scripts/post_traitement.py:67-72 | one start of the short loop appends the kept candidates of its row |
| Fingerprint.ScanShort | analyse/scripts/post_traitement.py:66-72 | the short loop keeps the short grid |
| Fingerprint.ScanWindow | analyse/scripts/post_traitement.py:76-78 | one long window is appended exactly when it is dense |
| Fingerprint.ScanLong | analyse/scripts/post_traitement.py:75-78 | the long loop keeps the long grid |
| Fingerprint.ExtraireFragments | analyse/scripts/post_traitement.py:50-80 | `extraire_fragments` computes the fragments |
| Fingerprint.WinnerUnique | analyse/scripts/post_traitement.py:105-110 | at most one fragment wins |
| Fingerprint.MeilleurDossier | analyse/scripts/post_traitement.py:102-115 | `None` exactly when no non-empty fragment occurs in the question; otherwise the owner of the longest occurring fragment, the first met among equals |
| Fingerprint.IdentifierDossier | analyse/scripts/post_traitement.py:83-115 | `None` for a missing or empty question; otherwise the above on the whitespace-collapsed question |

## Left out

- The regular-expression engine (`re` with `IGNORECASE` and Unicode classes) is a parameter. Only the properties of its matches on these patterns are assumed, as a precondition.
- The language-model calls are not modelled. This covers `decouper_conclusions_llm`, `appeler_llm`, the API call in `verifier_et_formater_resume`, and the summarisation pipeline around them. The fallback is a `Resolver` parameter that either raises or returns a typed start per kind.
- `json.loads` on the resolver's answer is not modelled (that answer is already typed). Only the fence cleaning before it is (`Summary.NettoyerJson`).
- An exception raised in the middle of the merge loop is not modelled. Examples: a `debut` that is not an integer, or an entry that is not a dictionary. The source then returns `regex_partiel` with the rounds done so far kept. The model only has a resolver that raises before the merge (the whole regex result kept) or returns well-typed starts.
- A resolver entry that is present but empty, and an entry whose `debut` is `null` or absent, are both modelled as `None`. Both are skipped by the source.
- `resumer_conclusions_parallele` is not modelled: it is concurrency (a thread pool) and wall-clock timing.
- The other timing measurements are not modelled either.
- Files, CSV and pandas I/O, printing and logging, and the Streamlit UI are not modelled.
- The analysis scripts with bootstrap resampling and plots are not part of this model.
- `nb_fragments` (`extraire_fragments`) and `seuil_longueur` (`identifier_dossier`) are unused by the source, and are not parameters here.
- The 40% test `> l * 0.4` is a floating-point comparison. It is modelled as `10 * count > 4 * l`, which agrees with it for every integer count and every length below 2^50.
- `identifier_dossier`: a question that is not a string (`str(question)` of a number) is not modelled. A NaN or missing question is the `None` of an `Option`.
- `identifier_dossier`: the dossier dictionary is a sequence of (number, fragments) pairs in insertion order.
- `Fingerprint.WordCount` only states its bound. What it counts (characters in `[a-zA-Z0-9]` or U+00C0–U+00FF) is its definition, used by `Dense`.
- `Hybrid.MergeAllFills`, `Hybrid.MergeResult` and `Hybrid.HybrideResult` state the cut-off of a placed kind only as "the end or a position after the start". The exact rule (the least known position of that round) is stated per round by `Hybrid.MergeOne`, because the known positions change from round to round.
- Strings are sequences of Unicode code points, as Python's `str`. There is no encoding, and case-insensitive matching lives inside the engine.
