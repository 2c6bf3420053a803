/**
 * The pure text helpers around the summary (amelioration_resume_test.py):
 * the header digest `extraire_info_entete`, the final document
 * `assembler_resume`, and the two code-fence strippers applied to model
 * answers (the JSON answer of the fallback splitter, and the corrected
 * summary of the verification step).
 */
module Summary {
  import opened Wrappers
  import opened Text

  // ---------------------------------------------------------------------------
  // Strip, characterised
  // ---------------------------------------------------------------------------

  /** Any stripped window of `s` with only whitespace around it is `s.strip()`. */
  lemma {:induction false} StripUnique(s: string, i: int, r: string)
    requires StripsTo(s, i, r) && IsStripped(r)
    ensures Strip(s) == r
  {
    var r' := Strip(s);
    var i' := StripWindow(s);
    StripEmptyIffBlank(s);
    if r != [] {
      assert r[0] == s[i] && !IsSpace(s[i]);
      assert r' != [];
      assert r'[0] == s[i'] && r'[|r'| - 1] == s[i' + |r'| - 1];
      assert r[|r| - 1] == s[i + |r| - 1];
      assert i' <= i && i <= i';
      assert i + |r| <= i' + |r'| && i' + |r'| <= i + |r|;
    }
  }

  /** Whitespace around a string does not change what it strips to. */
  lemma {:induction false} StripAround(a: string, b: string, c: string)
    requires forall k :: 0 <= k < |a| ==> IsSpace(a[k])
    requires forall k :: 0 <= k < |c| ==> IsSpace(c[k])
    ensures Strip(a + b + c) == Strip(b)
  {
    var i := StripWindow(b);
    WindowAround(a, b, c, i, Strip(b));
    StripUnique(a + b + c, |a| + i, Strip(b));
  }

  /** A window of `b` with whitespace around it stays one once more whitespace surrounds `b`. */
  lemma {:induction false} WindowAround(a: string, b: string, c: string, i: int, r: string)
    requires forall k :: 0 <= k < |a| ==> IsSpace(a[k])
    requires forall k :: 0 <= k < |c| ==> IsSpace(c[k])
    requires StripsTo(b, i, r)
    ensures StripsTo(a + b + c, |a| + i, r)
  {
    var s := a + b + c;
    assert s[|a| + i..|a| + i + |r|] == b[i..i + |r|];
    forall k | 0 <= k < |a| + i ensures IsSpace(s[k]) {
      if k < |a| {
        assert s[k] == a[k];
      } else {
        assert s[k] == b[k - |a|];
      }
    }
    forall k | |a| + i + |r| <= k < |s| ensures IsSpace(s[k]) {
      if k < |a| + |b| {
        assert s[k] == b[k - |a|];
      } else {
        assert s[k] == c[k - |a| - |b|];
      }
    }
  }

  // ---------------------------------------------------------------------------
  // extraire_info_entete
  // ---------------------------------------------------------------------------

  /** `[l.strip() for l in lignes if l.strip()]`. */
  function CleanLines(ls: seq<string>): seq<string> {
    if ls == [] then []
    else (if Strip(ls[0]) != [] then [Strip(ls[0])] else []) + CleanLines(ls[1..])
  }

  /** A digest line: not empty, stripped, one line. */
  predicate CleanLine(x: string) {
    x != [] && IsStripped(x) && '\n' !in x
  }

  predicate AllClean(ls: seq<string>) {
    forall i :: 0 <= i < |ls| ==> CleanLine(ls[i])
  }

  /** Lines without line breaks give clean lines. */
  lemma {:induction false} CleanLinesClean(ls: seq<string>)
    requires NoSep(ls, '\n')
    ensures AllClean(CleanLines(ls))
  {
    if ls != [] {
      var t := ls[1..];
      assert NoSep(t, '\n') by {
        assert forall i :: 0 <= i < |t| ==> t[i] == ls[i + 1];
      }
      CleanLinesClean(t);
      var h := Strip(ls[0]);
      StripNoChar(ls[0], '\n');
      var hs := if h != [] then [h] else [];
      assert AllClean(hs);
      AllCleanAppend(hs, CleanLines(t));
      assert CleanLines(ls) == hs + CleanLines(t);
    }
  }

  lemma {:induction false} AllCleanAppend(xs: seq<string>, ys: seq<string>)
    requires AllClean(xs) && AllClean(ys)
    ensures AllClean(xs + ys)
  {
    forall i | 0 <= i < |xs + ys| ensures CleanLine((xs + ys)[i]) {
      if i < |xs| {
        assert (xs + ys)[i] == xs[i];
      } else {
        assert (xs + ys)[i] == ys[i - |xs|];
      }
    }
  }

  lemma {:induction false} AllCleanNoSep(ls: seq<string>)
    requires AllClean(ls)
    ensures NoSep(ls, '\n')
  {
    forall i | 0 <= i < |ls| ensures '\n' !in ls[i] {
      assert CleanLine(ls[i]);
    }
  }

  /** Some line of `ls` strips to `x`. */
  predicate StripsSome(ls: seq<string>, x: string) {
    exists j :: 0 <= j < |ls| && Strip(ls[j]) == x
  }

  lemma {:induction false} StripsSomeCons(ls: seq<string>, x: string)
    requires ls != []
    ensures StripsSome(ls, x) <==> Strip(ls[0]) == x || StripsSome(ls[1..], x)
  {
    if StripsSome(ls[1..], x) {
      var j :| 0 <= j < |ls[1..]| && Strip(ls[1..][j]) == x;
      assert ls[1..][j] == ls[j + 1];
    }
    if StripsSome(ls, x) {
      var j :| 0 <= j < |ls| && Strip(ls[j]) == x;
      if j > 0 {
        assert ls[1..][j - 1] == ls[j];
      }
    }
  }

  /** The clean lines are the stripped non-blank lines, no more and no fewer. */
  lemma {:induction false} CleanLinesMembers(ls: seq<string>, x: string)
    ensures x in CleanLines(ls) <==> x != [] && StripsSome(ls, x)
  {
    if ls != [] {
      CleanLinesMembers(ls[1..], x);
      StripsSomeCons(ls, x);
      var h := Strip(ls[0]);
      var hs := if h != [] then [h] else [];
      assert CleanLines(ls) == hs + CleanLines(ls[1..]);
      assert x in hs + CleanLines(ls[1..]) <==> x in hs || x in CleanLines(ls[1..]);
    }
  }

  lemma {:induction false} HeadTail(ls: seq<string>)
    requires ls != []
    ensures [ls[0]] + ls[1..] == ls
  {
  }

  /** Lines that are already clean are kept as they are. */
  lemma {:induction false} CleanLinesFixed(ls: seq<string>)
    requires AllClean(ls)
    ensures CleanLines(ls) == ls
  {
    if ls != [] {
      var t := ls[1..];
      assert AllClean(t) by {
        assert forall i :: 0 <= i < |t| ==> t[i] == ls[i + 1];
      }
      CleanLinesFixed(t);
      assert CleanLine(ls[0]);
      StripStripped(ls[0]);
      assert CleanLines(ls) == [ls[0]] + CleanLines(t);
      HeadTail(ls);
    }
  }

  /** `extraire_info_entete(en_tete)`: the non-blank lines, each stripped, one per line. */
  function ExtraireInfoEntete(enTete: string): string {
    Join(CleanLines(Split(Strip(enTete), '\n')), "\n")
  }

  /** Joining non-empty stripped pieces gives a non-empty stripped string. */
  lemma {:induction false} JoinStripped(xs: seq<string>, sep: string)
    requires AllClean(xs)
    ensures xs != [] ==> Join(xs, sep) != []
    ensures IsStripped(Join(xs, sep))
  {
    if xs != [] {
      assert CleanLine(xs[0]);
    }
    if |xs| > 1 {
      assert AllClean(xs[1..]) by {
        assert forall i :: 0 <= i < |xs[1..]| ==> xs[1..][i] == xs[i + 1];
      }
      JoinStripped(xs[1..], sep);
      var j := Join(xs, sep);
      var tail := Join(xs[1..], sep);
      assert j == xs[0] + sep + tail;
      assert j[0] == xs[0][0];
      assert j[|j| - 1] == tail[|tail| - 1];
    }
  }

  /**
   * The digest has one line per non-blank line of the stripped header, each
   * stripped, in order; it is empty exactly when there is none.
   */
  lemma {:induction false} ExtraireInfoLines(enTete: string)
    ensures ExtraireInfoEntete(enTete) == [] <==> CleanLines(Split(Strip(enTete), '\n')) == []
    ensures CleanLines(Split(Strip(enTete), '\n')) != [] ==>
              Split(ExtraireInfoEntete(enTete), '\n') == CleanLines(Split(Strip(enTete), '\n'))
    ensures IsStripped(ExtraireInfoEntete(enTete))
  {
    HeaderLinesClean(enTete);
    DigestOfLines(enTete, Split(Strip(enTete), '\n'), CleanLines(Split(Strip(enTete), '\n')));
  }

  /** The digest is the clean lines `ls` of the header's lines, joined. */
  lemma DigestOfLines(enTete: string, lines: seq<string>, ls: seq<string>)
    requires lines == Split(Strip(enTete), '\n') && ls == CleanLines(lines) && AllClean(ls)
    ensures ExtraireInfoEntete(enTete) == [] <==> ls == []
    ensures ls != [] ==> Split(ExtraireInfoEntete(enTete), '\n') == ls
    ensures IsStripped(ExtraireInfoEntete(enTete))
  {
    JoinedLines(ls);
  }

  /** The clean lines of a header are digest lines. */
  lemma HeaderLinesClean(enTete: string)
    ensures AllClean(CleanLines(Split(Strip(enTete), '\n')))
  {
    SplitPieces(Strip(enTete), '\n');
    CleanLinesClean(Split(Strip(enTete), '\n'));
  }

  /** Non-empty stripped lines without line breaks, joined and split again. */
  lemma {:induction false} JoinedLines(ls: seq<string>)
    requires AllClean(ls)
    ensures Join(ls, "\n") == [] <==> ls == []
    ensures ls != [] ==> Split(Join(ls, "\n"), '\n') == ls
    ensures IsStripped(Join(ls, "\n"))
  {
    JoinStripped(ls, "\n");
    if ls != [] {
      AllCleanNoSep(ls);
      SplitJoin(ls, '\n');
    }
  }

  /** Clean lines joined are their own digest. */
  lemma {:induction false} DigestOfCleanLines(ls: seq<string>)
    requires AllClean(ls)
    ensures ExtraireInfoEntete(Join(ls, "\n")) == Join(ls, "\n")
  {
    var r := Join(ls, "\n");
    if ls == [] {
      assert r == [];
      StripEmptyIffBlank(r);
      assert Split(Strip(r), '\n') == [[]];
      assert CleanLines([[]]) == [];
    } else {
      JoinStripped(ls, "\n");
      StripStripped(r);
      AllCleanNoSep(ls);
      SplitJoin(ls, '\n');
      CleanLinesFixed(ls);
      assert CleanLines(Split(Strip(r), '\n')) == ls;
    }
  }

  /** The digest of a digest is itself. */
  lemma {:induction false} ExtraireInfoIdempotent(enTete: string)
    ensures ExtraireInfoEntete(ExtraireInfoEntete(enTete)) == ExtraireInfoEntete(enTete)
  {
    HeaderLinesClean(enTete);
    DigestOfCleanLines(CleanLines(Split(Strip(enTete), '\n')));
  }

  // ---------------------------------------------------------------------------
  // assembler_resume
  // ---------------------------------------------------------------------------

  const DefautFaits := "## I - RÉSUMÉ DES FAITS\n\n[Section faits non disponible]"
  const DefautMoyens := "## II - RÉSUMÉ DES MOYENS\n\n[Section moyens non disponible]"
  const DefautPretentions := "## III - RÉSUMÉ DES PRÉTENTIONS\n\n[Section prétentions non disponible]"

  /** `resumes.get(key, default)`. */
  function GetOr(resumes: map<string, string>, key: string, default: string): string {
    if key in resumes then resumes[key] else default
  }

  /** The `parties` list of `assembler_resume`. */
  function Parties(enTete: string, resumes: map<string, string>): seq<string> {
    [Titre, "", TitreEnTete, "", Fence, ExtraireInfoEntete(enTete), Fence, "",
     GetOr(resumes, "faits", DefautFaits), "",
     GetOr(resumes, "moyens", DefautMoyens), "",
     GetOr(resumes, "pretentions", DefautPretentions)]
  }

  /** `assembler_resume(en_tete, resumes)`. */
  function AssemblerResume(enTete: string, resumes: map<string, string>): string {
    Join(Parties(enTete, resumes), "\n")
  }

  /** The lines of every piece of `xs`, one piece after the other. */
  function SplitAll(xs: seq<string>, sep: char): seq<string> {
    if xs == [] then [] else Split(xs[0], sep) + SplitAll(xs[1..], sep)
  }

  lemma {:induction false} SplitJoinAll(xs: seq<string>, sep: char)
    requires xs != []
    ensures Split(Join(xs, [sep]), sep) == SplitAll(xs, sep)
  {
    if |xs| == 1 {
      assert SplitAll(xs[1..], sep) == [];
    } else {
      SplitJoinAll(xs[1..], sep);
      SplitConcat(xs[0], Join(xs[1..], [sep]), sep);
    }
  }

  lemma {:induction false} SplitAllAppend(xs: seq<string>, ys: seq<string>, sep: char)
    ensures SplitAll(xs + ys, sep) == SplitAll(xs, sep) + SplitAll(ys, sep)
  {
    if xs != [] {
      SplitAllAppend(xs[1..], ys, sep);
      assert (xs + ys)[1..] == xs[1..] + ys;
    } else {
      assert xs + ys == ys;
    }
  }

  lemma {:induction false} SplitAllPlain(xs: seq<string>, sep: char)
    requires NoSep(xs, sep)
    ensures SplitAll(xs, sep) == xs
  {
    if xs != [] {
      SplitNoSep(xs[0], sep);
      assert NoSep(xs[1..], sep) by {
        assert forall i :: 0 <= i < |xs[1..]| ==> xs[1..][i] == xs[i + 1];
      }
      SplitAllPlain(xs[1..], sep);
    }
  }

  lemma {:induction false} SplitAllOne(x: string, sep: char)
    ensures SplitAll([x], sep) == Split(x, sep)
  {
    assert [x][1..] == [];
  }

  const Titre := "# RÉSUMÉ DE CONCLUSION"
  const TitreEnTete := "## EN-TÊTE"
  const Fence := "```"

  /** The lines of the assembled parts, for any digest and section texts. */
  lemma {:induction false} PartsLines(t: string, h: string, fence: string, e: string, info: string, f: string, m: string, p: string)
    requires '\n' !in t && '\n' !in h && '\n' !in fence && '\n' !in e
    ensures Split(Join([t, e, h, e, fence, info, fence, e, f, e, m, e, p], "\n"), '\n') ==
      [t, e, h, e, fence] + Split(info, '\n') + [fence, e]
      + Split(f, '\n') + [e] + Split(m, '\n') + [e] + Split(p, '\n')
  {
    var head: seq<string> := [t, e, h, e, fence];
    var mid: seq<string> := [fence, e];
    var gap: seq<string> := [e];
    var ps := head + [info] + mid + [f] + gap + [m] + gap + [p];
    assert ps == [t, e, h, e, fence, info, fence, e, f, e, m, e, p];
    SplitJoinAll(ps, '\n');
    SplitAllPlain(head, '\n');
    SplitAllPlain(mid, '\n');
    SplitAllPlain(gap, '\n');
    SplitAllOne(info, '\n');
    SplitAllOne(f, '\n');
    SplitAllOne(m, '\n');
    SplitAllOne(p, '\n');
    SplitAllAppend(head + [info] + mid + [f] + gap + [m] + gap, [p], '\n');
    SplitAllAppend(head + [info] + mid + [f] + gap + [m], gap, '\n');
    SplitAllAppend(head + [info] + mid + [f] + gap, [m], '\n');
    SplitAllAppend(head + [info] + mid + [f], gap, '\n');
    SplitAllAppend(head + [info] + mid, [f], '\n');
    SplitAllAppend(head + [info], mid, '\n');
    SplitAllAppend(head, [info], '\n');
  }

  /**
   * The lines of the summary: the title and the `EN-TÊTE` heading, the
   * header digest between two fences, then the facts, the arguments and the
   * claims (each the given summary or its placeholder), separated by blank
   * lines.
   */
  lemma {:induction false} AssemblerLines(enTete: string, resumes: map<string, string>)
    ensures Split(AssemblerResume(enTete, resumes), '\n') ==
      [Titre, "", TitreEnTete, "", Fence]
      + Split(ExtraireInfoEntete(enTete), '\n') + [Fence, ""]
      + Split(GetOr(resumes, "faits", DefautFaits), '\n') + [""]
      + Split(GetOr(resumes, "moyens", DefautMoyens), '\n') + [""]
      + Split(GetOr(resumes, "pretentions", DefautPretentions), '\n')
  {
    TitlesOneLine();
    var info := ExtraireInfoEntete(enTete);
    var f := GetOr(resumes, "faits", DefautFaits);
    var m := GetOr(resumes, "moyens", DefautMoyens);
    var p := GetOr(resumes, "pretentions", DefautPretentions);
    assert AssemblerResume(enTete, resumes) ==
      Join([Titre, "", TitreEnTete, "", Fence, info, Fence, "", f, "", m, "", p], "\n");
    PartsLines(Titre, TitreEnTete, Fence, "", info, f, m, p);
  }

  /** The fixed lines of the summary hold no line break. */
  lemma {:induction false} TitlesOneLine()
    ensures '\n' !in Titre && '\n' !in TitreEnTete && '\n' !in Fence && '\n' !in ""
  {
  }

  // ---------------------------------------------------------------------------
  // Fence stripping of the fallback splitter's JSON answer
  // ---------------------------------------------------------------------------

  /** `s.split("```")[1]` for `s` starting with a fence: up to the next fence, or the end. */
  function InsideFence(s: string): string
    requires |s| >= 3
  {
    var rest := s[3..];
    match Find("```", rest)
    case None => rest
    case Some(i) => rest[..i]
  }

  /**
   * The answer cleaning of the fallback splitter: strip; if a fence opens the
   * answer, keep what it encloses and drop a leading `json` tag; strip again.
   */
  function NettoyerJson(reponse: string): string {
    Unfence(Strip(reponse))
  }

  /** The cleaning of an answer once stripped. */
  function Unfence(c: string): string {
    if "```" <= c then
      var inner := InsideFence(c);
      Strip(if "json" <= inner then inner[4..] else inner)
    else Strip(c)
  }

  /** An answer that does not open with a fence is only stripped. */
  lemma {:induction false} NettoyerJsonPlain(reponse: string)
    requires !("```" <= Strip(reponse))
    ensures NettoyerJson(reponse) == Strip(reponse)
  {
    StripIdempotent(reponse);
  }

  lemma BodyAt(tag: string, body: string, k: nat)
    requires k < |body|
    ensures (tag + "\n" + body + "\n" + "```")[|tag| + 1 + k] == body[k]
  {
  }

  /** Before the closing fence of `tag + "\n" + body + "\n```"` no fence starts. */
  lemma {:induction false} NoEarlierFence(tag: string, body: string)
    requires tag == "json" || tag == []
    requires forall j :: !OccursAt("```", body, j)
    ensures var x := tag + "\n" + body + "\n";
            forall j :: 0 <= j < |x| ==> !OccursAt("```", x + "```", j)
  {
    var x := tag + "\n" + body + "\n";
    var rest := x + "```";
    forall j | 0 <= j < |x| ensures !OccursAt("```", rest, j) {
      if j + 3 <= |rest| {
        if j <= |tag| {
          assert rest[j] != '`';
          assert rest[j..j + 3][0] == rest[j];
        } else if j + 3 <= |tag| + 1 + |body| {
          var b := j - |tag| - 1;
          assert rest[j..j + 3] == body[b..b + 3] by {
            BodyAt(tag, body, b);
            BodyAt(tag, body, b + 1);
            BodyAt(tag, body, b + 2);
          }
          assert !OccursAt("```", body, b);
        } else {
          assert rest[|x| - 1] == '\n';
          assert rest[j..j + 3][|x| - 1 - j] == rest[|x| - 1];
        }
      }
    }
  }

  /** What the fence encloses, when the first fence after the opening one closes `x`. */
  lemma {:induction false} InsideFenceAt(x: string)
    requires forall j :: 0 <= j < |x| ==> !OccursAt("```", x + "```", j)
    ensures InsideFence("```" + x + "```") == x
  {
    var s := "```" + x + "```";
    assert s[3..] == x + "```";
    assert OccursAt("```", x + "```", |x|);
    assert (x + "```")[..|x|] == x;
  }

  lemma {:induction false} StripNewlines(body: string)
    ensures Strip("\n" + body + "\n") == Strip(body)
  {
    assert IsSpace('\n');
    StripAround("\n", body, "\n");
  }

  /** Dropping the tag leaves the body between its two line breaks. */
  lemma {:induction false} TagDropped(tag: string, body: string)
    requires tag == "json" || tag == []
    ensures var x := tag + "\n" + body + "\n";
            (if "json" <= x then x[4..] else x) == "\n" + body + "\n"
  {
    var x := tag + "\n" + body + "\n";
    if tag == [] {
      assert x[0] == '\n';
      assert x == "\n" + body + "\n";
    } else {
      assert "json" <= x;
      assert x[4..] == "\n" + body + "\n";
    }
  }

  /** A fenced block has nothing to strip. */
  lemma {:induction false} FencedStripped(x: string)
    ensures Strip("```" + x + "```") == "```" + x + "```"
  {
    var s := "```" + x + "```";
    assert s[0] == '`' && s[|s| - 1] == '`';
    StripStripped(s);
  }

  /**
   * Round trip: a body without a fence inside, wrapped as a `json`-tagged or
   * untagged fenced block, comes back stripped.
   */
  lemma {:induction false} NettoyerJsonFenced(tag: string, body: string)
    requires tag == "json" || tag == []
    requires forall j :: !OccursAt("```", body, j)
    ensures NettoyerJson("```" + tag + "\n" + body + "\n```") == Strip(body)
  {
    var x := tag + "\n" + body + "\n";
    assert "```" + tag + "\n" + body + "\n```" == "```" + x + "```";
    NettoyerJsonBlock(x);
    UnfenceTagged(tag, body);
  }

  /** A fenced block is already stripped, so only the unfencing applies. */
  lemma {:induction false} NettoyerJsonBlock(x: string)
    ensures NettoyerJson("```" + x + "```") == Unfence("```" + x + "```")
  {
    FencedStripped(x);
  }

  /** The same round trip on the already stripped block. */
  lemma {:induction false} UnfenceTagged(tag: string, body: string)
    requires tag == "json" || tag == []
    requires forall j :: !OccursAt("```", body, j)
    ensures Unfence("```" + tag + "\n" + body + "\n```") == Strip(body)
  {
    var x := tag + "\n" + body + "\n";
    assert "```" + tag + "\n" + body + "\n```" == "```" + x + "```";
    NoEarlierFence(tag, body);
    UnfenceBlock(x);
    TagDropped(tag, body);
    StripNewlines(body);
  }

  /** A block whose first closing fence is its last one loses both fences. */
  lemma {:induction false} UnfenceBlock(x: string)
    requires forall j :: 0 <= j < |x| ==> !OccursAt("```", x + "```", j)
    ensures Unfence("```" + x + "```") == Strip(if "json" <= x then x[4..] else x)
  {
    assert "```" <= "```" + x + "```";
    InsideFenceAt(x);
  }

  // ---------------------------------------------------------------------------
  // Fence stripping of the corrected summary
  // ---------------------------------------------------------------------------

  /**
   * The cleaning of the corrected summary: when it opens with a fence, drop
   * the first line if it is the fence and the last line if it is a closing
   * fence; the result is stripped in every case.
   */
  function NettoyerFence(resume: string): string {
    Strip(if "```" <= resume then Join(DropFences(Split(resume, '\n')), "\n") else resume)
  }

  /** The lines kept: the first dropped when it opens a fence, then the last when it closes one. */
  function DropFences(lignes: seq<string>): seq<string> {
    var l1 := if lignes != [] && "```" <= lignes[0] then lignes[1..] else lignes;
    if l1 != [] && Strip(l1[|l1| - 1]) == "```" then l1[..|l1| - 1] else l1
  }

  /** Lines between an opening fence line and a closing fence are kept, and only they. */
  lemma {:induction false} DropFencesBlock(open: string, body: seq<string>)
    requires "```" <= open
    ensures DropFences([open] + body + ["```"]) == body
  {
    var ls := [open] + body + ["```"];
    assert ls[0] == open;
    var l1 := ls[1..];
    assert l1 == body + ["```"];
    StripStripped("```");
    assert l1[..|l1| - 1] == body;
  }

  /** When the text opens with a fence, so does its first line: that line is always dropped. */
  lemma {:induction false} FenceOnFirstLine(resume: string)
    requires "```" <= resume
    ensures "```" <= Split(resume, '\n')[0]
  {
    var i := 0;
    var s := resume;
    assert s[0] == '`' && s[1] == '`' && s[2] == '`';
    assert Split(s, '\n')[0] == [s[0]] + Split(s[1..], '\n')[0];
    assert Split(s[1..], '\n')[0] == [s[1]] + Split(s[2..], '\n')[0];
    assert Split(s[2..], '\n')[0] == [s[2]] + Split(s[3..], '\n')[0];
  }

  /**
   * A summary that does not open with a fence is only stripped: what comes back
   * is the summary less surrounding whitespace, and cleaning it again changes
   * nothing unless stripping uncovered a fence.
   */
  lemma {:induction false} NettoyerFencePlain(resume: string)
    requires !("```" <= resume)
    ensures NettoyerFence(resume) == Strip(resume)
    ensures exists i :: StripsTo(resume, i, NettoyerFence(resume))
    ensures !("```" <= Strip(resume)) ==> NettoyerFence(NettoyerFence(resume)) == NettoyerFence(resume)
  {
    var i := StripWindow(resume);
    StripIdempotent(resume);
  }

  /**
   * Round trip: a body wrapped in a fenced block with any one-line tag comes
   * back stripped, whatever the body holds.
   */
  lemma {:induction false} NettoyerFenceFenced(tag: string, body: string)
    requires '\n' !in tag
    ensures NettoyerFence("```" + tag + "\n" + body + "\n```") == Strip(body)
  {
    var open := "```" + tag;
    assert "```" + tag + "\n" + body + "\n```" == open + "\n" + body + "\n```";
    assert '\n' !in open by {
      assert forall k :: 3 <= k < |open| ==> open[k] == tag[k - 3];
    }
    FenceLines(open, body);
    DropFenceLines(open, body);
  }

  /** The lines of a fenced block: the opening line, the body's lines, the closing fence. */
  lemma {:induction false} FenceLines(open: string, body: string)
    requires '\n' !in open
    ensures Split(open + "\n" + body + "\n```", '\n') == [open] + Split(body, '\n') + ["```"]
  {
    assert open + "\n" + body + "\n```" == open + ['\n'] + (body + ['\n'] + "```");
    SplitConcat(open, body + ['\n'] + "```", '\n');
    SplitNoSep(open, '\n');
    SplitConcat(body, "```", '\n');
    SplitNoSep("```", '\n');
  }

  /** Dropping the opening and closing lines leaves the body. */
  lemma {:induction false} DropFenceLines(open: string, body: string)
    requires "```" <= open
    requires Split(open + "\n" + body + "\n```", '\n') == [open] + Split(body, '\n') + ["```"]
    ensures NettoyerFence(open + "\n" + body + "\n```") == Strip(body)
  {
    var s := open + "\n" + body + "\n```";
    assert "```" <= s by {
      assert s[..3] == open[..3];
    }
    DropFencesBlock(open, Split(body, '\n'));
    JoinSplit(body, '\n');
  }
}
