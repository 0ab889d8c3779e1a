/**
 * The note composer (App.tsx:20-219): the vitals sentence, one paragraph per
 * billing code with one sentence per merged group, the clinical assessment
 * and the tolerance sentence, blank parts dropped and the rest joined by
 * single spaces.
 */
module Narrative {
  import opened Text
  import opened JsKeys
  import opened Clinical
  import opened Grouping
  import opened Sentences
  import opened Statistics
  import opened VitalSigns

  /** Every cue of every unit can be taken apart by the cue decoder. */
  predicate UnitsParsable(units: seq<Unit>)
  {
    forall u :: u in units ==> CuesParsable(u.cues)
  }

  /** Merging copies cues from units, so merged groups stay decodable. */
  lemma GroupsParsable(units: seq<Unit>)
    requires UnitsParsable(units)
    ensures forall g :: g in MergedGroups(units) ==> CuesParsable(g.cues)
  {
    var gs := MergedGroups(units);
    forall i | 0 <= i < |gs|
      ensures CuesParsable(gs[i].cues)
    {
      MergeAddsNothing(units, i);
    }
  }

  /** `cptMinutes[cpt] ? "(m mins)" : ''`: an absent or empty entry prints nothing. */
  function MinutesText(minutes: map<string, string>, cpt: string): (r: string)
    ensures r == "" <==> cpt !in minutes || minutes[cpt] == ""
    ensures r != "" ==> r == "(" + minutes[cpt] + " mins)"
  {
    if cpt in minutes && minutes[cpt] != "" then "(" + minutes[cpt] + " mins)" else ""
  }

  /** `units[0].activity.split(" (")[0]`: the activity name without its code. */
  function ActivityLabel(activity: string): string
  {
    Split(activity, " (")[0]
  }

  /** One sentence per merged group, the group's position choosing the words. */
  function GroupSentences(lex: Lexicon, groups: seq<Group>): (r: seq<string>)
    requires lex.vocab.Valid() && forall g :: g in groups ==> CuesParsable(g.cues)
    ensures |r| == |groups|
    ensures forall i :: 0 <= i < |groups| ==> r[i] == Sentence(lex, groups[i], i)
  {
    seq(|groups|, i requires 0 <= i < |groups| => Sentence(lex, groups[i], i))
  }

  /** The paragraph of one billing code and its units. */
  function Paragraph(lex: Lexicon, minutes: map<string, string>, cpt: string, units: seq<Unit>): string
    requires units != [] && lex.vocab.Valid() && UnitsParsable(units)
  {
    GroupsParsable(units);
    "\n\n" + cpt + " " + ActivityLabel(units[0].activity) + " " + MinutesText(minutes, cpt) + ": "
      + Join(GroupSentences(lex, MergedGroups(units)), " ")
  }

  /** The paragraph of code `cpt`, built from the units recorded under it. */
  function ParagraphOf(lex: Lexicon, minutes: map<string, string>, selections: seq<Unit>, cpt: string): string
    requires lex.vocab.Valid() && UnitsParsable(selections)
    requires cpt in Cpts(selections)
  {
    InCpts(selections, cpt);
    Paragraph(lex, minutes, cpt, WithCpt(selections, cpt))
  }

  /** The body paragraphs, one per billing code, in the grouping object's key order. */
  function Paragraphs(lex: Lexicon, minutes: map<string, string>, selections: seq<Unit>): (r: seq<string>)
    requires lex.vocab.Valid() && UnitsParsable(selections)
    ensures |r| == |CptOrder(selections)|
  {
    var cs := CptOrder(selections);
    seq(|cs|, i requires 0 <= i < |cs| => ParagraphOf(lex, minutes, selections, cs[i]))
  }

  /** The whole note. */
  function Note(lex: Lexicon, selections: seq<Unit>, vitals: Vitals,
                     minutes: map<string, string>, progress: Progress): string
    requires lex.vocab.Valid() && UnitsParsable(selections)
  {
    if selections == [] then "No data entered."
    else Assemble(VitalsSentence(vitals), Paragraphs(lex, minutes, selections),
                  Assessment(lex, selections, progress), Tolerance(vitals.pain))
  }

  /** `[physVitals, ...bodyParagraphs, assessment, tolerance]`, blank parts
      dropped, joined by single spaces. */
  function Assemble(physVitals: string, paragraphs: seq<string>, assessment: string, tolerance: string): string
  {
    Join(NonBlank([physVitals] + paragraphs + [assessment, tolerance]), " ")
  }

  /** The composer: vitals, code grouping, one paragraph per code (merging its
      units and wording each group), assessment and tolerance, then the
      filter of blank parts and the join. */
  method GenerateNarrative(lex: Lexicon, selections: seq<Unit>, vitals: Vitals,
                           cptMinutes: map<string, string>, progress: Progress) returns (note: string)
    requires lex.vocab.Valid() && UnitsParsable(selections)
    ensures note == Note(lex, selections, vitals, cptMinutes, progress)
  {
    if |selections| == 0 {
      return "No data entered.";
    }
    var physVitals := BuildVitals(vitals);
    var cptGroups := GroupByCpt(selections);
    var bodyParagraphs := ComposeParagraphs(lex, cptMinutes, selections, cptGroups);
    var assessment := Assess(lex, selections, progress);
    var tolerance := ComposeTolerance(vitals.pain);
    note := Assemble(physVitals, bodyParagraphs, assessment, tolerance);
  }

  /** `Object.entries(cptGroups).map(...)`: the paragraphs of the codes in the
      grouping object's enumeration order. */
  method ComposeParagraphs(lex: Lexicon, cptMinutes: map<string, string>, selections: seq<Unit>,
                           cptGroups: Record<seq<Unit>>) returns (bodyParagraphs: seq<string>)
    requires lex.vocab.Valid() && UnitsParsable(selections)
    requires cptGroups.Valid() && cptGroups.keys == CptOrder(selections)
    requires forall c :: c in cptGroups.entries ==> cptGroups.entries[c] == WithCpt(selections, c)
    ensures bodyParagraphs == Paragraphs(lex, cptMinutes, selections)
  {
    ghost var expected := Paragraphs(lex, cptMinutes, selections);
    bodyParagraphs := [];
    for j := 0 to |cptGroups.keys|
      invariant bodyParagraphs == expected[..j]
    {
      var cpt := cptGroups.keys[j];
      assert cpt in Cpts(selections);
      InCpts(selections, cpt);
      var paragraph := ComposeParagraph(lex, cptMinutes, cpt, cptGroups.entries[cpt]);
      assert paragraph == expected[j];
      TakeOneMore(expected, j);
      bodyParagraphs := bodyParagraphs + [paragraph];
    }
    assert expected[..|cptGroups.keys|] == expected;
  }


  /** The composer's steps for one code's paragraph; they realise `Paragraph`. */
  method ComposeParagraph(lex: Lexicon, cptMinutes: map<string, string>, cpt: string, units: seq<Unit>)
      returns (paragraph: string)
    requires units != [] && lex.vocab.Valid() && UnitsParsable(units)
    ensures paragraph == Paragraph(lex, cptMinutes, cpt, units)
  {
    var minutes := if cpt in cptMinutes && cptMinutes[cpt] != "" then "(" + cptMinutes[cpt] + " mins)" else "";
    var activityLabel := Split(units[0].activity, " (")[0];
    var groups := MergeGroups(units);
    GroupsParsable(units);
    var sentences := GroupSentences(lex, groups);
    paragraph := "\n\n" + cpt + " " + activityLabel + " " + minutes + ": " + Join(sentences, " ");
  }

  // ---------------------------------------------------------------------
  // What the note is made of
  // ---------------------------------------------------------------------

  /** A paragraph is never blank: it carries the ':' after its heading. */
  lemma ParagraphNotBlank(lex: Lexicon, minutes: map<string, string>, cpt: string, units: seq<Unit>)
    requires units != [] && lex.vocab.Valid() && UnitsParsable(units)
    ensures !IsBlank(Paragraph(lex, minutes, cpt, units))
  {
    GroupsParsable(units);
    var head := "\n\n" + cpt + " " + ActivityLabel(units[0].activity) + " " + MinutesText(minutes, cpt);
    var body := Join(GroupSentences(lex, MergedGroups(units)), " ");
    assert Paragraph(lex, minutes, cpt, units) == head + ": " + body;
    assert (head + ": " + body)[|head|] == ':';
    NotBlankAt(head + ": " + body, |head|);
  }

  lemma ParagraphsNotBlank(lex: Lexicon, minutes: map<string, string>, selections: seq<Unit>)
    requires lex.vocab.Valid() && UnitsParsable(selections)
    ensures forall p :: p in Paragraphs(lex, minutes, selections) ==> !IsBlank(p)
  {
    var ps := Paragraphs(lex, minutes, selections);
    var cs := CptOrder(selections);
    forall i | 0 <= i < |ps|
      ensures !IsBlank(ps[i])
    {
      InCpts(selections, cs[i]);
      ParagraphNotBlank(lex, minutes, cs[i], WithCpt(selections, cs[i]));
    }
  }

  /** A session without units gives the fixed note whatever the vitals,
      the minutes and the progress are. */
  lemma EmptySessionNote(lex: Lexicon, vitals: Vitals, minutes: map<string, string>, progress: Progress)
    requires lex.vocab.Valid()
    ensures Note(lex, [], vitals, minutes, progress) == "No data entered."
  {
  }

  /** The blank filter removes exactly the vitals sentence when no vital sign
      was recorded; every paragraph, the assessment and the tolerance sentence
      always stay. */
  lemma NarrativeParts(lex: Lexicon, selections: seq<Unit>, vitals: Vitals,
                       minutes: map<string, string>, progress: Progress)
    requires lex.vocab.Valid() && UnitsParsable(selections) && selections != []
    ensures var vs := VitalsSentence(vitals);
            var head := if vitals.bp == "" && vitals.hr == "" && vitals.rr == "" && vitals.o2 == "" then [] else [vs];
            Note(lex, selections, vitals, minutes, progress)
              == Join(head + Paragraphs(lex, minutes, selections)
                      + [Assessment(lex, selections, progress), Tolerance(vitals.pain)], " ")
  {
    var vs, ps := VitalsSentence(vitals), Paragraphs(lex, minutes, selections);
    var a, t := Assessment(lex, selections, progress), Tolerance(vitals.pain);
    assert Note(lex, selections, vitals, minutes, progress) == Assemble(vs, ps, a, t);
    PartsNotBlank(lex, selections, vitals, minutes, progress);
    VitalsSentenceDropped(vitals, vitals.pain);
    AssembleKeeps(VitalsSentence(vitals), Paragraphs(lex, minutes, selections),
                  Assessment(lex, selections, progress), Tolerance(vitals.pain),
                  vitals.bp == "" && vitals.hr == "" && vitals.rr == "" && vitals.o2 == "");
  }

  /** Every paragraph, the assessment and the tolerance sentence survive the blank filter. */
  lemma PartsNotBlank(lex: Lexicon, selections: seq<Unit>, vitals: Vitals,
                      minutes: map<string, string>, progress: Progress)
    requires lex.vocab.Valid() && UnitsParsable(selections)
    ensures forall p :: p in Paragraphs(lex, minutes, selections) ==> !IsBlank(p)
    ensures !IsBlank(Assessment(lex, selections, progress)) && !IsBlank(Tolerance(vitals.pain))
  {
    ParagraphsNotBlank(lex, minutes, selections);
    AssessmentIsNotBlank(lex, selections, progress);
    ToleranceNotBlank(vitals.pain);
  }

  /** The filter drops an empty first part and keeps every non-blank one. */
  lemma AssembleKeeps(physVitals: string, paragraphs: seq<string>, assessment: string, tolerance: string,
                      dropped: bool)
    requires dropped <==> physVitals == ""
    requires physVitals == "" || !IsBlank(physVitals)
    requires forall p :: p in paragraphs ==> !IsBlank(p)
    requires !IsBlank(assessment) && !IsBlank(tolerance)
    ensures Assemble(physVitals, paragraphs, assessment, tolerance)
              == Join((if dropped then [] else [physVitals]) + paragraphs + [assessment, tolerance], " ")
  {
    var rest := paragraphs + [assessment, tolerance];
    NonBlankKeepsAll(rest);
    var parts := [physVitals] + rest;
    assert parts[0] == physVitals && parts[1..] == rest;
    var head: seq<string> := if physVitals == "" then [] else [physVitals];
    assert IsBlank(physVitals) <==> physVitals == "";
    assert NonBlank(parts) == head + rest;
    assert [physVitals] + paragraphs + [assessment, tolerance] == parts;
    assert head + paragraphs + [assessment, tolerance] == head + rest;
  }

  lemma AssessmentIsNotBlank(lex: Lexicon, selections: seq<Unit>, progress: Progress)
    ensures !IsBlank(Assessment(lex, selections, progress))
  {
    var a := MostFrequent(Assists(selections));
    var ds := MostFrequent(AllDeficits(selections));
    var ac := MostFrequent(Activities(selections));
    AssessmentNotBlank(BranchOf(progress, ModeAssist(a)), ModeAssist(a), CleanActivity(ac), CleanDeficit(lex, ds));
  }

  /** The assembled note ends with " " and its last part when that part is
      not blank. */
  lemma AssembleEnds(physVitals: string, paragraphs: seq<string>, assessment: string, tolerance: string)
    requires !IsBlank(assessment) && !IsBlank(tolerance)
    ensures var note := Assemble(physVitals, paragraphs, assessment, tolerance);
            |note| >= |tolerance| + 1 && note[|note| - |tolerance| - 1..] == " " + tolerance
  {
    var front0 := [physVitals] + paragraphs;
    var front := front0 + [assessment];
    assert [physVitals] + paragraphs + [assessment, tolerance] == front + [tolerance];
    NonBlankSnoc(front0, assessment);
    JoinKeptEnds(front, tolerance);
    var j := Join(NonBlank(front), " ");
    EndsWith(j, " " + tolerance);
  }

  /** Filtering and joining a list with a non-blank last part ends with " "
      and that part, when something before it survives the filter. */
  lemma JoinKeptEnds(front: seq<string>, x: string)
    requires !IsBlank(x) && NonBlank(front) != []
    ensures Join(NonBlank(front + [x]), " ") == Join(NonBlank(front), " ") + (" " + x)
  {
    NonBlankSnoc(front, x);
    JoinSnoc(NonBlank(front), x, " ");
  }

  lemma EndsWith(a: string, b: string)
    ensures |a + b| >= |b| && (a + b)[|a + b| - |b|..] == b
  {
  }

  /** The billing codes the paragraphs follow: each code used by some unit
      exactly once, in the grouping object's enumeration order (index-like
      codes ascending, then the others in order of first use; with no
      index-like code, simply order of first use). */
  lemma CodeOrder(selections: seq<Unit>)
    ensures var cs := CptOrder(selections);
            && (forall c :: c in cs <==> exists u :: u in selections && u.cpt == c)
            && Distinct(cs) && InKeyOrder(cs)
            && ((forall u :: u in selections ==> !IsArrayIndex(u.cpt)) ==> cs == Dedup(Cpts(selections)))
  {
    var cs := CptOrder(selections);
    var xs := Cpts(selections);
    forall c | c in cs ensures exists u :: u in selections && u.cpt == c {
      var k :| 0 <= k < |xs| && xs[k] == c;
      assert selections[k] in selections;
    }
    forall c | (exists u :: u in selections && u.cpt == c) ensures c in cs {
      var u :| u in selections && u.cpt == c;
      var k :| 0 <= k < |selections| && selections[k] == u;
      assert xs[k] == c;
    }
    if forall u :: u in selections ==> !IsArrayIndex(u.cpt) {
      forall x | x in xs ensures !IsArrayIndex(x) {
        var k :| 0 <= k < |xs| && xs[k] == x;
        assert selections[k] in selections;
      }
      KeyOrderNoIndices(xs);
    }
  }

  /** The `i`-th paragraph belongs to the `i`-th code: it opens with that code
      and is built from exactly the units recorded under it. */
  lemma ParagraphAt(lex: Lexicon, minutes: map<string, string>, selections: seq<Unit>, i: nat)
    requires lex.vocab.Valid() && UnitsParsable(selections)
    requires i < |CptOrder(selections)|
    ensures var c := CptOrder(selections)[i];
            var units := WithCpt(selections, c);
            var p := Paragraphs(lex, minutes, selections)[i];
            && units != []
            && (forall u :: u in units <==> u in selections && u.cpt == c)
            && p == Paragraph(lex, minutes, c, units)
            && |p| > 3 + |c| && p[..3 + |c|] == "\n\n" + c + " "
  {
    var c := CptOrder(selections)[i];
    InCpts(selections, c);
    var units := WithCpt(selections, c);
    GroupsParsable(units);
    var lead := "\n\n" + c + " ";
    var name, mins := ActivityLabel(units[0].activity), MinutesText(minutes, c);
    var body := Join(GroupSentences(lex, MergedGroups(units)), " ");
    assert Paragraph(lex, minutes, c, units) == lead + name + " " + mins + ": " + body;
    PrefixOfChain(lead, name, " ", mins, ": ", body);
  }

  lemma PrefixOfChain(lead: string, a: string, b: string, c: string, d: string, e: string)
    ensures |lead + a + b + c + d + e| >= |lead|
    ensures (lead + a + b + c + d + e)[..|lead|] == lead
  {
    assert lead + a + b + c + d + e == lead + (a + b + c + d + e);
  }
}
