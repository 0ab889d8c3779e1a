/**
 * The session state the composer reads from: the recorded selections with
 * their undo/redo history (App.tsx:265-285), and the input builders that
 * turn the matrix inputs into a recorded unit (App.tsx:321-367).
 */
module Session {
  import opened Text
  import opened Clinical
  import opened Grouping
  import opened Sentences
  import opened Narrative

  // ---------------------------------------------------------------------
  // The undo/redo timeline as a value
  // ---------------------------------------------------------------------

  /** The three history fields: older snapshots (most recent last), the
      current selections, and the snapshots undone (next one first). */
  datatype Timeline = Timeline(history: seq<seq<Unit>>, present: seq<Unit>, future: seq<seq<Unit>>)

  /** Every snapshot of the timeline, oldest first; the present sits at
      position `|history|`. */
  function Snapshots(t: Timeline): seq<seq<Unit>>
  {
    t.history + [t.present] + t.future
  }

  /** `updateSelections`: the present is pushed onto the history, the new
      selections become the present and the undone snapshots are dropped. */
  function Edit(t: Timeline, next: seq<Unit>): Timeline
  {
    Timeline(t.history + [t.present], next, [])
  }

  /** `handleUndo`: nothing without history; otherwise step back one snapshot. */
  function UndoStep(t: Timeline): Timeline
  {
    if |t.history| == 0 then t
    else Timeline(t.history[..|t.history| - 1], t.history[|t.history| - 1], [t.present] + t.future)
  }

  /** `handleRedo`: nothing without undone snapshots; otherwise step forward one. */
  function RedoStep(t: Timeline): Timeline
  {
    if |t.future| == 0 then t
    else Timeline(t.history + [t.present], t.future[0], t.future[1..])
  }

  /** Undo moves one position back along the same sequence of snapshots,
      and stays put at the start. */
  lemma UndoKeepsTimeline(t: Timeline)
    ensures Snapshots(UndoStep(t)) == Snapshots(t)
    ensures |UndoStep(t).history| == if t.history == [] then 0 else |t.history| - 1
    ensures t.history == [] ==> UndoStep(t) == t
  {
    if t.history != [] {
      var n := |t.history| - 1;
      assert t.history[..n] + [t.history[n]] == t.history;
    }
  }

  /** Redo moves one position forward along the same sequence of snapshots,
      and stays put at the end. */
  lemma RedoKeepsTimeline(t: Timeline)
    ensures Snapshots(RedoStep(t)) == Snapshots(t)
    ensures |RedoStep(t).history| == if t.future == [] then |t.history| else |t.history| + 1
    ensures t.future == [] ==> RedoStep(t) == t
  {
    if t.future != [] {
      assert [t.future[0]] + t.future[1..] == t.future;
    }
  }

  /** Undo followed by redo restores all three fields. */
  lemma RedoUndo(t: Timeline)
    requires t.history != []
    ensures RedoStep(UndoStep(t)) == t
  {
    var n := |t.history| - 1;
    assert t.history[..n] + [t.history[n]] == t.history;
  }

  /** Redo followed by undo restores all three fields. */
  lemma UndoRedo(t: Timeline)
    requires t.future != []
    ensures UndoStep(RedoStep(t)) == t
  {
    assert (t.history + [t.present])[..|t.history|] == t.history;
    assert [t.future[0]] + t.future[1..] == t.future;
  }

  /** An edit keeps the snapshots up to the present, appends the new one and
      forgets what was undone; undoing it brings the old selections back with
      the edit ready to be redone. */
  lemma EditThenUndo(t: Timeline, next: seq<Unit>)
    ensures Snapshots(Edit(t, next)) == t.history + [t.present, next]
    ensures Edit(t, next).future == []
    ensures UndoStep(Edit(t, next)) == Timeline(t.history, t.present, [next])
  {
    assert (t.history + [t.present])[..|t.history|] == t.history;
  }

  // ---------------------------------------------------------------------
  // The selection history as an object
  // ---------------------------------------------------------------------

  class Session {
    var selections: seq<Unit>
    var history: seq<seq<Unit>>
    var future: seq<seq<Unit>>

    function Now(): Timeline
      reads this
    {
      Timeline(history, selections, future)
    }

    /** Every snapshot the user can reach can be composed into a note. */
    ghost predicate Valid()
      reads this
    {
      forall s :: s in Snapshots(Now()) ==> UnitsParsable(s)
    }

    /** A fresh session: nothing recorded, nothing to undo or redo. */
    constructor()
      ensures Now() == Timeline([], [], []) && Valid()
    {
      selections, history, future := [], [], [];
    }

    method UpdateSelections(newSelections: seq<Unit>)
      requires Valid() && UnitsParsable(newSelections)
      modifies this
      ensures Now() == Edit(old(Now()), newSelections)
      ensures Valid()
    {
      EditThenUndo(Now(), newSelections);
      history := history + [selections];
      selections := newSelections;
      future := [];
    }

    method Undo()
      requires Valid()
      modifies this
      ensures Now() == UndoStep(old(Now()))
      ensures Valid()
    {
      UndoKeepsTimeline(Now());
      if |history| == 0 {
        return;
      }
      var previous := history[|history| - 1];
      future := [selections] + future;
      selections := previous;
      history := history[..|history| - 1];
    }

    method Redo()
      requires Valid()
      modifies this
      ensures Now() == RedoStep(old(Now()))
      ensures Valid()
    {
      RedoKeepsTimeline(Now());
      if |future| == 0 {
        return;
      }
      var next := future[0];
      history := history + [selections];
      selections := next;
      future := future[1..];
    }

    /** `handleConfirmMatrix`: without a chosen phase and sub-task nothing
        happens; otherwise the built unit is appended as an undoable edit and
        the matrix inputs are reset. */
    method ConfirmMatrix(draft: Draft) returns (next: Draft)
      requires Valid() && CuesParsable(draft.addedCues)
      modifies this
      ensures MakeUnit(draft).None? ==> Now() == old(Now()) && next == draft
      ensures MakeUnit(draft).Some? ==>
                Now() == Edit(old(Now()), old(selections) + [MakeUnit(draft).value])
                && next == ResetDraft(draft)
      ensures Valid()
    {
      var unit := MakeUnit(draft);
      if unit.None? {
        return draft;
      }
      UnitsParsableSnoc(selections, unit.value);
      UpdateSelections(selections + [unit.value]);
      next := ResetDraft(draft);
    }

    /** `handleEnterReview`: the note of the current selections. */
    method EnterReview(lex: Lexicon, vitals: Vitals, cptMinutes: map<string, string>, progress: Progress)
        returns (noteText: string)
      requires Valid() && lex.vocab.Valid()
      ensures noteText == Note(lex, selections, vitals, cptMinutes, progress)
    {
      assert selections in Snapshots(Now());
      noteText := GenerateNarrative(lex, selections, vitals, cptMinutes, progress);
    }
  }

  lemma UnitsParsableSnoc(units: seq<Unit>, u: Unit)
    requires UnitsParsable(units) && CuesParsable(u.cues)
    ensures UnitsParsable(units + [u])
  {
  }

  // ---------------------------------------------------------------------
  // The matrix inputs and their builders
  // ---------------------------------------------------------------------

  /** The inputs of the unit being built: the chosen activity, phase and
      sub-task, and the matrix fields. */
  datatype Draft = Draft(
    activity: string,
    cpt: string,
    phase: Option<string>,
    subtask: Option<string>,
    assist: string,
    deficits: seq<string>,
    customDeficit: string,
    params: string,
    cueType: string,
    cueLevel: string,
    cueFocuses: seq<string>,
    addedCues: seq<string>)

  /** `xs.filter(y => y !== x)`. */
  function Remove(xs: seq<string>, x: string): (r: seq<string>)
    ensures forall y :: y in r <==> y in xs && y != x
    ensures |r| <= |xs|
  {
    if xs == [] then []
    else (if xs[0] == x then [] else [xs[0]]) + Remove(xs[1..], x)
  }

  /** The shared body of `toggleDeficit` and `toggleCueFocus`. */
  function Toggle(xs: seq<string>, x: string): seq<string>
  {
    if x in xs then Remove(xs, x) else xs + [x]
  }

  function ToggleDeficit(d: Draft, def: string): Draft
  {
    d.(deficits := Toggle(d.deficits, def))
  }

  function ToggleCueFocus(d: Draft, focus: string): Draft
  {
    d.(cueFocuses := Toggle(d.cueFocuses, focus))
  }

  /** Toggling flips the membership of its item and of nothing else, and
      keeps a list free of repeats. */
  lemma ToggleFlips(xs: seq<string>, x: string)
    ensures x in Toggle(xs, x) <==> x !in xs
    ensures forall y :: y != x ==> (y in Toggle(xs, x) <==> y in xs)
    ensures Distinct(xs) ==> Distinct(Toggle(xs, x))
  {
    if x in xs && Distinct(xs) {
      RemoveDistinct(xs, x);
    }
  }

  lemma {:induction false} RemoveDistinct(xs: seq<string>, x: string)
    requires Distinct(xs)
    ensures Distinct(Remove(xs, x))
  {
    if xs != [] {
      RemoveDistinct(xs[1..], x);
      var r := Remove(xs[1..], x);
      assert xs[0] !in xs[1..];
      assert xs[0] !in r;
    }
  }

  /** Toggling twice gives back the list when the item was absent, and moves
      the item to the end when it was present. */
  lemma ToggleTwice(xs: seq<string>, x: string)
    ensures x !in xs ==> Toggle(Toggle(xs, x), x) == xs
    ensures x in xs ==> Toggle(Toggle(xs, x), x) == Remove(xs, x) + [x]
  {
    if x !in xs {
      RemoveAbsent(xs + [x], x, |xs|);
      assert (xs + [x])[..|xs|] == xs;
    }
  }

  /** Removing the item from a list that holds it only at its last position
      drops that position. */
  lemma {:induction false} RemoveAbsent(xs: seq<string>, x: string, n: nat)
    requires n == |xs| - 1 && xs[n] == x && x !in xs[..n]
    ensures Remove(xs, x) == xs[..n]
  {
    if n > 0 {
      assert xs[1..][..n - 1] == xs[1..n];
      assert xs[..n] == [xs[0]] + xs[1..n];
      RemoveAbsent(xs[1..], x, n - 1);
    }
  }

  /** `${cueLevel} ${cueType} (${cueFocuses.join(", ")})`. */
  function EncodeCue(level: string, kind: string, focuses: seq<string>): string
  {
    level + " " + kind + " (" + Join(focuses, ", ") + ")"
  }

  /** `handleAddCue`: the encoded cue is appended unless already listed. */
  function AddCue(d: Draft): Draft
  {
    d.(addedCues := AppendNew(d.addedCues, EncodeCue(d.cueLevel, d.cueType, d.cueFocuses)))
  }

  /** The cue list gains exactly the encoded cue, once, and stays decodable. */
  lemma AddCueKeeps(d: Draft)
    ensures var cues := AddCue(d).addedCues;
            var c := EncodeCue(d.cueLevel, d.cueType, d.cueFocuses);
            && c in cues
            && (forall x :: x in cues <==> x in d.addedCues || x == c)
            && (Distinct(d.addedCues) ==> Distinct(cues))
            && (CuesParsable(d.addedCues) ==> CuesParsable(cues))
  {
    EncodedParsable(d.cueLevel, d.cueType, d.cueFocuses);
  }

  /** Every encoded cue can be taken apart by the decoder: it always holds
      " (" before its focus list. */
  lemma EncodedParsable(level: string, kind: string, focuses: seq<string>)
    ensures Parsable(EncodeCue(level, kind, focuses))
  {
    var main := level + " " + kind;
    var tail := Join(focuses, ", ") + ")";
    var c := EncodeCue(level, kind, focuses);
    assert c == main + " (" + tail;
    assert c[|main|..|main| + 2] == " (";
    assert OccursAt(c, " (", |main|);
    assert IndexOf(c, " (").Some?;
  }

  /** Decoding an encoded cue gives "<level> <type> cues for <focuses>",
      the focuses lower-cased and listed as "a", "a and b" or "a, b, and c",
      when the level and type hold no '(' and the focuses no '(', ')' or ','. */
  lemma CueRoundTrip(level: string, kind: string, focuses: seq<string>)
    requires focuses != []
    requires '(' !in level && '(' !in kind
    requires forall f :: f in focuses ==> '(' !in f && ')' !in f && ',' !in f
    ensures Parsable(EncodeCue(level, kind, focuses))
    ensures CuePhrase(EncodeCue(level, kind, focuses))
              == level + " " + kind + " cues for " + ListPhrase(LowerAll(focuses))
  {
    var main := level + " " + kind;
    var joined := Join(focuses, ", ");
    var c := EncodeCue(level, kind, focuses);
    SplitEncoded(level, kind, focuses);
    var parts := Split(c, " (");
    assert parts[0] == main && parts[1] == joined + ")";
    assert '(' in c by { assert c[|main| + 1] == '('; }
    JoinAvoids(focuses, ", ", ')');
    RemoveFirstAfter(joined, ')', []);
    assert joined + [')'] + [] == joined + ")";
    var raw := RemoveFirst(parts[1], ')');
    assert raw == joined;
    SplitJoin(focuses, ", ");
    assert Split(raw, ", ") == focuses;
    assert CuePhrase(c) == main + " cues for " + FocusText(focuses);
    FocusTextIsListPhrase(focuses);
  }

  /** An encoded cue splits at " (" into its "<level> <type>" part and the
      focus list with its closing parenthesis. */
  lemma SplitEncoded(level: string, kind: string, focuses: seq<string>)
    requires '(' !in level && '(' !in kind
    requires forall f :: f in focuses ==> '(' !in f
    ensures Parsable(EncodeCue(level, kind, focuses))
    ensures Split(EncodeCue(level, kind, focuses), " (") == [level + " " + kind, Join(focuses, ", ") + ")"]
  {
    var main := level + " " + kind;
    var tail := Join(focuses, ", ") + ")";
    var c := EncodeCue(level, kind, focuses);
    EncodedParsable(level, kind, focuses);
    assert c == main + " (" + tail;
    FirstOccurrenceAfter(main, " (", tail, 1);
    JoinAvoids(focuses, ", ", '(');
    NoOccurrence(tail, " (", 1);
    assert (main + " (" + tail)[..|main|] == main;
    assert (main + " (" + tail)[|main| + 2..] == tail;
  }

  /** A character found in no piece and not in the separator is not in the join. */
  lemma {:induction false} JoinAvoids(parts: seq<string>, sep: string, ch: char)
    requires ch !in sep && forall p :: p in parts ==> ch !in p
    ensures ch !in Join(parts, sep)
  {
    if |parts| >= 2 {
      JoinAvoids(parts[1..], sep, ch);
    }
  }

  /** `handleConfirmMatrix`'s unit: nothing without a chosen phase and
      sub-task; the custom deficit is appended when given, and an empty
      parameter text is left out. */
  function MakeUnit(d: Draft): Option<Unit>
  {
    if d.phase.None? || d.subtask.None? then None
    else
      var finalDeficits := if d.customDeficit != "" then d.deficits + [d.customDeficit] else d.deficits;
      Some(Unit(d.activity, d.cpt, d.phase.value, d.subtask.value, d.assist, d.addedCues, finalDeficits,
                if d.params == "" then None else Some(d.params)))
  }

  /** The composer reads back what the matrix held: the parameter text,
      the task display, the cues, and the chosen deficits followed by the
      custom one. */
  lemma MakeUnitReadBack(d: Draft)
    ensures MakeUnit(d).Some? <==> d.phase.Some? && d.subtask.Some?
    ensures MakeUnit(d).Some? ==>
              var u := MakeUnit(d).value;
              && ParamsText(u) == d.params
              && TaskDisplay(u) == (if d.params == "" then d.subtask.value
                                    else d.subtask.value + " (" + d.params + ")")
              && u.cues == d.addedCues
              && (forall x :: x in u.deficits <==> x in d.deficits || (x == d.customDeficit && x != ""))
              && u.deficits[..|d.deficits|] == d.deficits
  {
  }

  /** The matrix inputs after a confirmed unit: assistance, deficits,
      parameters and cues cleared, the focus back to "Safety"; the chosen
      activity, phase, cue type and cue level stay. */
  function ResetDraft(d: Draft): Draft
  {
    d.(assist := "", deficits := [], customDeficit := "", params := "", addedCues := [], cueFocuses := ["Safety"])
  }

  /** The saved-session preview: the first three tasks joined by ", ", with
      "..." when there are more, or "Unnamed Session" when that is empty. */
  function Preview(selections: seq<Unit>): string
  {
    var shown := if |selections| > 3 then selections[..3] else selections;
    var summary := Join(TaskNames(shown), ", ") + (if |selections| > 3 then "..." else "");
    if summary == "" then "Unnamed Session" else summary
  }

  function TaskNames(units: seq<Unit>): (r: seq<string>)
    ensures |r| == |units|
    ensures forall i :: 0 <= i < |units| ==> r[i] == units[i].task
  {
    seq(|units|, i requires 0 <= i < |units| => units[i].task)
  }

  /** The preview is never empty; a longer session is marked with "...",
      and a short one shows its tasks joined by ", ", or "Unnamed Session"
      when that join is empty. */
  lemma PreviewShape(selections: seq<Unit>)
    ensures Preview(selections) != ""
    ensures |selections| > 3 ==>
              var p := Preview(selections);
              |p| >= 3 && p[|p| - 3..] == "..."
    ensures |selections| > 3 ==>
              Preview(selections)
              == selections[0].task + ", " + selections[1].task + ", " + selections[2].task + "..."
    ensures |selections| <= 3 && Join(TaskNames(selections), ", ") != "" ==>
              Preview(selections) == Join(TaskNames(selections), ", ")
    ensures |selections| <= 3 && Join(TaskNames(selections), ", ") == "" ==>
              Preview(selections) == "Unnamed Session"
  {
    if |selections| <= 3 {
      assert Join(TaskNames(selections), ", ") + "" == Join(TaskNames(selections), ", ");
    } else {
      var a, b, c := selections[0].task, selections[1].task, selections[2].task;
      var names := TaskNames(selections[..3]);
      assert names == [a, b, c];
      assert names[1..] == [b, c] && [b, c][1..] == [c];
      assert Join([b, c], ", ") == b + ", " + c;
      assert Join(names, ", ") == a + ", " + (b + ", " + c);
      var summary := a + ", " + b + ", " + c + "...";
      assert Preview(selections) == summary;
      assert summary[|summary| - 3..] == "...";
    }
  }
}
