/**
 * The sentence written for one merged group (App.tsx:64-155): the deficit
 * phrase, the decoded cues, the words picked by group position and one of
 * six sentence templates with its way of attaching the cues.
 */
module Sentences {
  import opened Text
  import opened Clinical

  // ---------------------------------------------------------------------
  // Listing phrases
  // ---------------------------------------------------------------------

  /** "a", "a and b", "a, b, and c": the listing rule the composer applies
      to deficit phrases and to cue focuses. */
  function ListPhrase(items: seq<string>): string
    requires |items| >= 1
  {
    if |items| == 1 then items[0]
    else if |items| == 2 then items[0] + " and " + items[1]
    else Join(items[..|items| - 1], ", ") + ", and " + items[|items| - 1]
  }

  /** The dictionary phrase of each deficit, in order. */
  function SkilledAll(lex: Lexicon, ds: seq<string>): (r: seq<string>)
    ensures |r| == |ds|
    ensures forall i :: 0 <= i < |ds| ==> r[i] == SkilledPhrase(lex, ds[i])
  {
    seq(|ds|, i requires 0 <= i < |ds| => SkilledPhrase(lex, ds[i]))
  }

  /** The deficit phrase of a group; "functional deficits" when it has none. */
  function DeficitPhrase(lex: Lexicon, ds: seq<string>): string
  {
    if ds == [] then "functional deficits" else ListPhrase(SkilledAll(lex, ds))
  }

  /** The four shapes of the deficit phrase, by number of deficits. */
  lemma DeficitPhraseShapes(lex: Lexicon, a: string, b: string, c: string)
    ensures DeficitPhrase(lex, []) == "functional deficits"
    ensures DeficitPhrase(lex, [a]) == SkilledPhrase(lex, a)
    ensures DeficitPhrase(lex, [a, b]) == SkilledPhrase(lex, a) + " and " + SkilledPhrase(lex, b)
    ensures DeficitPhrase(lex, [a, b, c])
         == SkilledPhrase(lex, a) + ", " + SkilledPhrase(lex, b) + ", and " + SkilledPhrase(lex, c)
  {
    var three := SkilledAll(lex, [a, b, c]);
    var pa, pb := SkilledPhrase(lex, a), SkilledPhrase(lex, b);
    assert three[..2] == [pa, pb];
    assert [pa, pb][1..] == [pb];
    assert Join([pa, pb], ", ") == pa + ", " + pb;
  }

  // ---------------------------------------------------------------------
  // Cue decoding
  // ---------------------------------------------------------------------

  /** The focus list of a cue lower-cased and listed, written the way the
      composer writes it: the head of a long list is joined first and then
      lower-cased as one string. */
  function FocusText(fs: seq<string>): string
    requires |fs| >= 1
  {
    if |fs| == 1 then Lower(fs[0])
    else if |fs| == 2 then Lower(fs[0]) + " and " + Lower(fs[1])
    else Lower(Join(fs[..|fs| - 1], ", ")) + ", and " + Lower(fs[|fs| - 1])
  }

  /** Focus lists follow the same listing rule as deficits, on the
      lower-cased focuses. */
  lemma FocusTextIsListPhrase(fs: seq<string>)
    requires |fs| >= 1
    ensures FocusText(fs) == ListPhrase(LowerAll(fs))
  {
    if |fs| >= 3 {
      LowerJoin(fs[..|fs| - 1]);
      assert LowerAll(fs)[..|fs| - 1] == LowerAll(fs[..|fs| - 1]);
    }
  }

  /** A cue the decoder can take apart: one with '(' has a " (" to split at. */
  predicate Parsable(c: string)
  {
    '(' in c ==> |Split(c, " (")| >= 2
  }

  predicate CuesParsable(cues: seq<string>)
  {
    forall c :: c in cues ==> Parsable(c)
  }

  /** The phrase for one cue: "<main> cues for <focuses>" when the cue carries
      a focus list in parentheses, otherwise "<cue> cues". */
  function CuePhrase(c: string): string
    requires Parsable(c)
  {
    if '(' in c then
      var parts := Split(c, " (");
      var rawFocus := RemoveFirst(parts[1], ')');
      parts[0] + " cues for " + FocusText(Split(rawFocus, ", "))
    else
      c + " cues"
  }

  /** A cue without parentheses is named as it is. */
  lemma BareCue(c: string)
    requires '(' !in c
    ensures CuePhrase(c) == c + " cues"
  {
  }

  function CuePhrases(cues: seq<string>): (r: seq<string>)
    requires CuesParsable(cues)
    ensures |r| == |cues|
    ensures forall i :: 0 <= i < |cues| ==> r[i] == CuePhrase(cues[i])
  {
    seq(|cues|, i requires 0 <= i < |cues| => CuePhrase(cues[i]))
  }

  /** The cue phrases of a group joined by "; ". */
  function CueSegment(cues: seq<string>): string
    requires CuesParsable(cues)
  {
    Join(CuePhrases(cues), "; ")
  }

  /** Every cue phrase ends in a word, so the segment is empty exactly when
      the group has no cues. */
  lemma CueSegmentEmpty(cues: seq<string>)
    requires CuesParsable(cues)
    ensures CueSegment(cues) == "" <==> cues == []
  {
    if cues != [] {
      var ps := CuePhrases(cues);
      assert |CuePhrase(cues[0])| > 0;
      JoinHeadNonEmpty(ps, "; ");
    }
  }

  lemma JoinHeadNonEmpty(parts: seq<string>, sep: string)
    requires |parts| >= 1 && parts[0] != ""
    ensures Join(parts, sep) != ""
  {
    if |parts| >= 2 {
      assert |Join(parts, sep)| >= |parts[0]|;
    }
  }

  // ---------------------------------------------------------------------
  // Words and templates
  // ---------------------------------------------------------------------

  /** The words group `i` of a paragraph uses, each at `i` modulo its list's length. */
  datatype Words = Words(
    patientVerb: string,
    therapistVerb: string,
    cause: string,
    effect: string,
    goal: string,
    descriptor: string)

  function WordsAt(v: Vocab, i: nat): Words
    requires v.Valid()
  {
    Words(Cycled(v.patientVerbs, i), Cycled(v.therapistVerbs, i), Cycled(v.cause, i),
          Cycled(v.effect, i), Cycled(v.goal, i), Cycled(v.descriptors, i))
  }

  /** How a template attaches the cue segment. */
  datatype Style = Comma | Separate | Necessitating

  /** `attachCues`: the base alone when there are no cues. */
  function AttachCues(base: string, style: Style, cueSegment: string): string
  {
    if cueSegment == "" then base + "."
    else match style
      case Comma => base + ", requiring " + cueSegment + "."
      case Necessitating => base + ", necessitating " + cueSegment + "."
      case Separate => base + ". Required " + cueSegment + "."
  }

  /** The attachment style of template `t`. */
  function StyleOf(t: nat): Style
  {
    if t == 0 || t == 4 then Comma
    else if t == 3 then Necessitating
    else Separate
  }

  /** The deficit phrase with the descriptor in front, on even positions. */
  function Qualified(w: Words, deficits: string, i: nat): string
  {
    if i % 2 == 0 then w.descriptor + " " + deficits else deficits
  }

  /** The sentence of template `i % 6` before the cues are attached. */
  function Base(g: Group, w: Words, deficits: string, i: nat): string
  {
    var tasks := Join(g.tasks, ", ");
    var q := Qualified(w, deficits, i);
    match i % 6
    case 0 => "Patient " + w.patientVerb + " " + tasks + " with " + g.assist + " " + w.cause + " " + q
    case 1 => w.therapistVerb + " " + tasks + " " + w.goal + " " + deficits
              + "; patient demonstrated " + g.assist + " performance"
    case 2 => q + " " + w.effect + " " + g.assist + " during " + tasks
    case 3 => tasks + " completed with " + g.assist + " " + w.cause + " " + q
    case 4 => "Intervention targeted " + deficits + " via " + tasks + ", where patient required " + g.assist
    case _ => "Patient executed " + tasks + " with " + g.assist + ", as " + q + " limited independence"
  }

  /** The sentence for group `i` of a paragraph. */
  function Sentence(lex: Lexicon, g: Group, i: nat): string
    requires lex.vocab.Valid() && CuesParsable(g.cues)
  {
    AttachCues(Base(g, WordsAt(lex.vocab, i), DeficitPhrase(lex, g.deficits), i),
               StyleOf(i % 6), CueSegment(g.cues))
  }

  // ---------------------------------------------------------------------
  // What a sentence is made of
  // ---------------------------------------------------------------------

  /** Without cues a sentence is its base and a full stop; with cues,
      templates 0 and 4 append ", requiring", template 3 ", necessitating",
      and templates 1, 2 and 5 a separate "Required" sentence. */
  lemma SentenceAttachment(lex: Lexicon, g: Group, i: nat)
    requires lex.vocab.Valid() && CuesParsable(g.cues)
    ensures var base := Base(g, WordsAt(lex.vocab, i), DeficitPhrase(lex, g.deficits), i);
            var seg := CueSegment(g.cues);
            && (g.cues == [] ==> Sentence(lex, g, i) == base + ".")
            && (g.cues != [] && i % 6 in {0, 4} ==> Sentence(lex, g, i) == base + ", requiring " + seg + ".")
            && (g.cues != [] && i % 6 == 3 ==> Sentence(lex, g, i) == base + ", necessitating " + seg + ".")
            && (g.cues != [] && i % 6 in {1, 2, 5} ==> Sentence(lex, g, i) == base + ". Required " + seg + ".")
  {
    CueSegmentEmpty(g.cues);
  }

  /** The descriptor reaches the sentence only on even positions other than
      template 4: elsewhere any other descriptor list gives the same sentence. */
  lemma DescriptorOnlyOnEven(lex: Lexicon, g: Group, i: nat, descriptors: seq<string>)
    requires lex.vocab.Valid() && CuesParsable(g.cues) && |descriptors| > 0
    requires i % 2 == 1 || i % 6 == 4
    ensures Sentence(lex.(vocab := lex.vocab.(descriptors := descriptors)), g, i) == Sentence(lex, g, i)
  {
    var other := lex.(vocab := lex.vocab.(descriptors := descriptors));
    var w, w' := WordsAt(lex.vocab, i), WordsAt(other.vocab, i);
    var d := DeficitPhrase(lex, g.deficits);
    assert SkilledAll(other, g.deficits) == SkilledAll(lex, g.deficits);
    assert w' == w.(descriptor := w'.descriptor);
    if i % 2 == 1 {
      assert Qualified(w', d, i) == Qualified(w, d, i);
    }
    assert Base(g, w', d, i) == Base(g, w, d, i);
  }

  /** A sentence reads the word lists only at position `i` modulo their
      lengths: lexicons that agree there give the same sentence. */
  lemma WordsDecideSentence(lex: Lexicon, other: Lexicon, g: Group, i: nat)
    requires lex.vocab.Valid() && other.vocab.Valid() && CuesParsable(g.cues)
    requires lex.skilled == other.skilled
    requires Cycled(lex.vocab.patientVerbs, i) == Cycled(other.vocab.patientVerbs, i)
    requires Cycled(lex.vocab.therapistVerbs, i) == Cycled(other.vocab.therapistVerbs, i)
    requires Cycled(lex.vocab.cause, i) == Cycled(other.vocab.cause, i)
    requires Cycled(lex.vocab.effect, i) == Cycled(other.vocab.effect, i)
    requires Cycled(lex.vocab.goal, i) == Cycled(other.vocab.goal, i)
    requires Cycled(lex.vocab.descriptors, i) == Cycled(other.vocab.descriptors, i)
    ensures Sentence(lex, g, i) == Sentence(other, g, i)
  {
    assert WordsAt(lex.vocab, i) == WordsAt(other.vocab, i);
    assert DeficitPhrase(lex, g.deficits) == DeficitPhrase(other, g.deficits) by {
      assert SkilledAll(lex, g.deficits) == SkilledAll(other, g.deficits);
    }
  }

  /** With the shipped word lists (of 7, 6, 5, 4, 6 and 5 words) sentences
      repeat every 420 groups, the least common multiple of those lengths and
      the six templates. */
  lemma ShippedSentencePeriod(skilled: map<string, string>, g: Group, i: nat)
    requires CuesParsable(g.cues)
    ensures NarrativeVocabulary.Valid()
    ensures Sentence(Lexicon(skilled, NarrativeVocabulary), g, i + 420)
         == Sentence(Lexicon(skilled, NarrativeVocabulary), g, i)
  {
    ShippedVocabularyValid();
    var v := NarrativeVocabulary;
    assert (i + 420) % 6 == i % 6 && (i + 420) % 2 == i % 2;
    assert (i + 420) % 7 == i % 7 && (i + 420) % 5 == i % 5 && (i + 420) % 4 == i % 4;
    assert WordsAt(v, i + 420) == WordsAt(v, i);
  }
}
