/**
 * The records the note composer consumes and the lexicon it reads: treatment
 * units, session vitals, the progress trend, merged groups, the deficit
 * phrase dictionary and the cycled word lists.
 */
module Clinical {
  import opened Text

  /** One recorded treatment unit. */
  datatype Unit = Unit(
    activity: string,       // activity label, e.g. "Self-Care (97535)"
    cpt: string,            // billing code the unit is reported under
    phase: string,
    task: string,
    assist: string,         // assistance level, e.g. "Min A"
    cues: seq<string>,      // bare labels or "<level> <type> (<focus>, ...)"
    deficits: seq<string>,  // dictionary keys or free text
    params: Option<string>) // free-text modifier such as "2x10 Reps"

  /** `unit.params || ''`: an absent and an empty parameter read alike. */
  function ParamsText(u: Unit): string
  {
    match u.params
    case None => ""
    case Some(p) => p
  }

  /** Session vitals; an empty field was not recorded. */
  datatype Vitals = Vitals(bp: string, hr: string, rr: string, o2: string, pain: string)

  datatype Progress = Improved | Maintained | Declined

  /** The units of one billing code that share a composite key, merged. */
  datatype Group = Group(
    phase: string,
    assist: string,
    tasks: seq<string>,
    cues: seq<string>,
    deficits: seq<string>)

  /** The word lists the sentences cycle through by group position. */
  datatype Vocab = Vocab(
    patientVerbs: seq<string>,
    therapistVerbs: seq<string>,
    cause: seq<string>,
    effect: seq<string>,
    goal: seq<string>,
    descriptors: seq<string>)
  {
    /** Every list has a word, so indexing by `i % length` is defined. */
    predicate Valid()
    {
      && |patientVerbs| > 0 && |therapistVerbs| > 0
      && |cause| > 0 && |effect| > 0 && |goal| > 0
      && |descriptors| > 0
    }
  }

  /** The read-only tables the composer consults. */
  datatype Lexicon = Lexicon(skilled: map<string, string>, vocab: Vocab)

  /** The word lists the application ships. */
  const NarrativeVocabulary: Vocab := Vocab(
    ["engaged in", "navigated", "executed", "completed", "participated in", "demonstrated", "performed"],
    ["facilitated", "guided", "instructed", "corrected", "modulated", "intervened with"],
    ["secondary to", "stemming from", "exacerbated by", "related to", "in the context of"],
    ["necessitating", "warranting", "requiring", "indicating need for"],
    ["to ameliorate", "to optimize", "to restore", "to enhance", "to mitigate", "to remediate"],
    ["significant", "persistent", "notable", "variable", "demonstrable"])

  lemma ShippedVocabularyValid()
    ensures NarrativeVocabulary.Valid()
    ensures |NarrativeVocabulary.patientVerbs| == 7 && |NarrativeVocabulary.therapistVerbs| == 6
    ensures |NarrativeVocabulary.cause| == 5 && |NarrativeVocabulary.effect| == 4
    ensures |NarrativeVocabulary.goal| == 6 && |NarrativeVocabulary.descriptors| == 5
  {
  }

  /** `SKILLED_MAP[d] || d`: the dictionary phrase when there is a non-empty
      one, otherwise the key itself. */
  function SkilledPhrase(lex: Lexicon, d: string): string
  {
    if d in lex.skilled && lex.skilled[d] != "" then lex.skilled[d] else d
  }

  /** `words[i % words.length]`. */
  function Cycled(words: seq<string>, i: nat): string
    requires |words| > 0
  {
    words[i % |words|]
  }

  /** `units.flatMap(u => u.deficits)`. */
  function AllDeficits(units: seq<Unit>): (r: seq<string>)
    ensures forall d :: d in r <==> exists u :: u in units && d in u.deficits
  {
    if units == [] then []
    else
      var init := units[..|units| - 1];
      var last := units[|units| - 1];
      assert forall u :: u in units <==> u in init || u == last;
      AllDeficits(init) + last.deficits
  }

  /** The cues of the units, concatenated in order. */
  function AllCues(units: seq<Unit>): (r: seq<string>)
    ensures forall c :: c in r <==> exists u :: u in units && c in u.cues
  {
    if units == [] then []
    else
      var init := units[..|units| - 1];
      var last := units[|units| - 1];
      assert forall u :: u in units <==> u in init || u == last;
      AllCues(init) + last.cues
  }

  lemma AllSnoc(units: seq<Unit>, u: Unit)
    ensures AllCues(units + [u]) == AllCues(units) + u.cues
    ensures AllDeficits(units + [u]) == AllDeficits(units) + u.deficits
  {
    assert (units + [u])[..|units|] == units;
  }
}
