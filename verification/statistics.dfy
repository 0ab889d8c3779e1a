/**
 * The assessment paragraph (App.tsx:164-202): occurrence counts kept in
 * plain objects, the most frequent key picked with a strict-comparison
 * `reduce`, and a decision table on the progress trend and the most frequent
 * assistance level.
 */
module Statistics {
  import opened Text
  import opened JsKeys
  import opened Clinical

  // ---------------------------------------------------------------------
  // Counting
  // ---------------------------------------------------------------------

  /** How often each value occurs in `xs`. */
  function CountsOf(xs: seq<string>): (m: map<string, nat>)
    ensures forall k :: k in m <==> k in xs
    ensures forall k :: k in m ==> m[k] == Count(xs, k) && m[k] > 0
  {
    map k | k in xs :: Count(xs, k)
  }

  /** The counting object after the values `done`: their keys in enumeration
      order, each with its number of occurrences. */
  ghost predicate CountedSoFar(r: Record<nat>, done: seq<string>)
  {
    && r.Valid()
    && r.keys == KeyOrder(done)
    && forall k :: k in r.entries ==> r.entries[k] == Count(done, k)
  }

  lemma CountStep(r: Record<nat>, pre: seq<string>, x: string)
    requires CountedSoFar(r, pre)
    ensures CountedSoFar(r.Set(x, (if x in r.entries then r.entries[x] else 0) + 1), pre + [x])
  {
    var n := (if x in r.entries then r.entries[x] else 0) + 1;
    SetKeyOrder(r, pre, x, n);
    TallyStep(r.entries, pre, x);
    assert r.Set(x, n).entries == r.entries[x := n];
  }

  /** One more occurrence of `x` adds one to its tally and to no other. */
  lemma TallyStep(tally: map<string, nat>, pre: seq<string>, x: string)
    requires forall k :: k in tally ==> tally[k] == Count(pre, k)
    requires x in tally <==> x in pre
    ensures var t2 := tally[x := (if x in tally then tally[x] else 0) + 1];
            forall k :: k in t2 ==> t2[k] == Count(pre + [x], k)
  {
    var t2 := tally[x := (if x in tally then tally[x] else 0) + 1];
    forall k | k in t2 ensures t2[k] == Count(pre + [x], k) {
      CountSnoc(pre, x, k);
    }
  }

  /** `xs.forEach(l => { counts[l] = (counts[l] || 0) + 1; })` on an empty object. */
  method CountKeys(xs: seq<string>) returns (counts: Record<nat>)
    ensures counts.Valid()
    ensures counts.keys == KeyOrder(xs)
    ensures forall k :: k in counts.entries ==> counts.entries[k] == Count(xs, k)
  {
    counts := EmptyRecord();
    for i := 0 to |xs|
      invariant CountedSoFar(counts, xs[..i])
    {
      var x := xs[i];
      TakeOneMore(xs, i);
      var prior := if x in counts.entries then counts.entries[x] else 0;
      ghost var before := counts;
      counts := counts.Set(x, prior + 1);
      CountStep(before, xs[..i], x);
    }
    assert xs[..|xs|] == xs;
  }

  // ---------------------------------------------------------------------
  // The most frequent key
  // ---------------------------------------------------------------------

  /** `keys.reduce((a, b) => counts[a] > counts[b] ? a : b)` on a non-empty key list. */
  function Reduce(keys: seq<string>, counts: map<string, nat>): (r: string)
    requires |keys| >= 1 && forall k :: k in keys ==> k in counts
    ensures r in keys
  {
    if |keys| == 1 then keys[0]
    else
      var a := Reduce(keys[..|keys| - 1], counts);
      var b := keys[|keys| - 1];
      if counts[a] > counts[b] then a else b
  }

  /** The reduction picks a key of highest count, and the last such key,
      since a tie hands over to the later key. */
  lemma ReduceIsLastMax(keys: seq<string>, counts: map<string, nat>)
    requires |keys| >= 1 && forall k :: k in keys ==> k in counts
    ensures var r := Reduce(keys, counts);
            && (forall k :: k in keys ==> counts[k] <= counts[r])
            && (forall j :: 0 <= j < |keys| && counts[keys[j]] == counts[r] ==> r in keys[j..])
  {
    ReduceIsMax(keys, counts);
    ReduceIsLast(keys, counts);
  }

  lemma {:induction false} ReduceIsMax(keys: seq<string>, counts: map<string, nat>)
    requires |keys| >= 1 && forall k :: k in keys ==> k in counts
    ensures forall k :: k in keys ==> counts[k] <= counts[Reduce(keys, counts)]
  {
    if |keys| > 1 {
      var init := keys[..|keys| - 1];
      assert forall k :: k in keys <==> k in init || k == keys[|keys| - 1];
      ReduceIsMax(init, counts);
    }
  }

  lemma ReduceIsLast(keys: seq<string>, counts: map<string, nat>)
    requires |keys| >= 1 && forall k :: k in keys ==> k in counts
    ensures forall j :: 0 <= j < |keys| && counts[keys[j]] == counts[Reduce(keys, counts)] ==>
              Reduce(keys, counts) in keys[j..]
  {
    forall j | 0 <= j < |keys| && counts[keys[j]] == counts[Reduce(keys, counts)]
      ensures Reduce(keys, counts) in keys[j..]
    {
      ReduceIsLastAt(keys, counts, j);
    }
  }

  lemma {:induction false} ReduceIsLastAt(keys: seq<string>, counts: map<string, nat>, j: nat)
    requires |keys| >= 1 && forall k :: k in keys ==> k in counts
    requires j < |keys| && counts[keys[j]] == counts[Reduce(keys, counts)]
    ensures Reduce(keys, counts) in keys[j..]
  {
    var n := |keys| - 1;
    if n > 0 {
      var init := keys[..n];
      var a := Reduce(init, counts);
      if counts[a] > counts[keys[n]] {
        assert j < n;
        assert init[j] == keys[j];
        ReduceIsLastAt(init, counts, j);
        assert keys[j..] == init[j..] + [keys[n]];
      } else {
        assert keys[j..][n - j] == keys[n];
      }
    }
  }

  /** The most frequent value of a non-empty list, in the enumeration order
      of the counting object's keys. */
  function MostFrequent(xs: seq<string>): Option<string>
  {
    if xs == [] then None else Some(Reduce(KeyOrder(xs), CountsOf(xs)))
  }

  /** The value picked occurs in the list, nothing occurs more often, and no
      equally frequent value comes after it in key order. */
  lemma MostFrequentIsLastMax(xs: seq<string>)
    requires xs != []
    ensures MostFrequent(xs).Some?
    ensures var r := MostFrequent(xs).value;
            var ks := KeyOrder(xs);
            && r in xs
            && (forall x :: x in xs ==> Count(xs, x) <= Count(xs, r))
            && (forall j :: 0 <= j < |ks| && Count(xs, ks[j]) == Count(xs, r) ==> r in ks[j..])
  {
    var ks := KeyOrder(xs);
    var m := CountsOf(xs);
    assert xs[0] in ks;
    assert forall k :: k in ks ==> k in m && m[k] == Count(xs, k);
    ReduceCounts(ks, m, xs);
  }

  lemma ReduceCounts(ks: seq<string>, m: map<string, nat>, xs: seq<string>)
    requires |ks| >= 1
    requires forall k :: k in ks ==> k in m && m[k] == Count(xs, k)
    requires forall x :: x in xs <==> x in ks
    ensures var r := Reduce(ks, m);
            && r in xs
            && (forall x :: x in xs ==> Count(xs, x) <= Count(xs, r))
            && (forall j :: 0 <= j < |ks| && Count(xs, ks[j]) == Count(xs, r) ==> r in ks[j..])
  {
    ReduceIsLastMax(ks, m);
  }

  /** Reducing reads the counts of the listed keys only. */
  lemma {:induction false} ReduceAgree(keys: seq<string>, m1: map<string, nat>, m2: map<string, nat>)
    requires |keys| >= 1
    requires forall k :: k in keys ==> k in m1 && k in m2 && m1[k] == m2[k]
    ensures Reduce(keys, m1) == Reduce(keys, m2)
  {
    if |keys| > 1 {
      var init := keys[..|keys| - 1];
      assert forall k :: k in init ==> k in keys;
      ReduceAgree(init, m1, m2);
    }
  }

  /** The key count and reduction of App.tsx:166-178, for one list of values:
      the counting object, then its most frequent key when it has keys. */
  method TopKey(xs: seq<string>) returns (top: Option<string>)
    ensures top == MostFrequent(xs)
  {
    var counts := CountKeys(xs);
    if |counts.keys| > 0 {
      ReduceAgree(counts.keys, counts.entries, CountsOf(xs));
      top := Some(Reduce(counts.keys, counts.entries));
    } else {
      top := None;
    }
  }

  /** When no value is an array index the key order is first-occurrence
      order, so ties go to the value first seen last. */
  lemma MostFrequentTieBreak(xs: seq<string>)
    requires xs != [] && forall x :: x in xs ==> !IsArrayIndex(x)
    ensures var r := MostFrequent(xs).value;
            var ks := Dedup(xs);
            forall j :: 0 <= j < |ks| && Count(xs, ks[j]) == Count(xs, r) ==> r in ks[j..]
  {
    KeyOrderNoIndices(xs);
    MostFrequentIsLastMax(xs);
  }

  // ---------------------------------------------------------------------
  // Assessment
  // ---------------------------------------------------------------------

  /** The most frequent assistance level, or "N/A" when there is none. */
  function ModeAssist(top: Option<string>): string
  {
    match top
    case None => "N/A"
    case Some(a) => a
  }

  /** The dictionary phrase of the most frequent deficit; "functional
      deficits" when there is none or it is the empty string. */
  function CleanDeficit(lex: Lexicon, top: Option<string>): string
  {
    match top
    case None => "functional deficits"
    case Some(d) => if d == "" then "functional deficits" else SkilledPhrase(lex, d)
  }

  /** The most frequent activity label, cut at its first " ("; "functional
      tasks" when there is none. */
  function CleanActivity(top: Option<string>): string
  {
    var name := if top.Some? then top.value else "functional tasks";
    Split(name, " (")[0]
  }

  function Assists(units: seq<Unit>): (r: seq<string>)
    ensures |r| == |units| && forall i :: 0 <= i < |units| ==> r[i] == units[i].assist
  {
    seq(|units|, i requires 0 <= i < |units| => units[i].assist)
  }

  function Activities(units: seq<Unit>): (r: seq<string>)
    ensures |r| == |units| && forall i :: 0 <= i < |units| ==> r[i] == units[i].activity
  {
    seq(|units|, i requires 0 <= i < |units| => units[i].activity)
  }

  /** The seven rows of the decision table. */
  datatype Branch =
    | Decline
    | MaintainedDependent | MaintainedGuarded | MaintainedSteady
    | ImprovedGuarded | ImprovedIndependent | ImprovedAssisted

  /** The assistance levels the table singles out. */
  predicate HighAssist(a: string) { a in {"Dep", "Max A", "Mod A"} }
  predicate LowAssist(a: string) { a in {"Min A", "CGA", "SBA"} }
  predicate Independent(a: string) { a == "Mod I" || a == "Indep" }

  /** The row the trend and the most frequent assistance level select. */
  function BranchOf(progress: Progress, modeAssist: string): (b: Branch)
    ensures progress == Declined <==> b == Decline
    ensures progress == Maintained <==> b in {MaintainedDependent, MaintainedGuarded, MaintainedSteady}
  {
    match progress
    case Declined => Decline
    case Maintained =>
      if HighAssist(modeAssist) then MaintainedDependent
      else if LowAssist(modeAssist) then MaintainedGuarded
      else MaintainedSteady
    case Improved =>
      if LowAssist(modeAssist) then ImprovedGuarded
      else if Independent(modeAssist) then ImprovedIndependent
      else ImprovedAssisted
  }

  /** A decline is reported whatever the assistance level; otherwise the
      buckets are tried in the table's order and every level lands in exactly
      one row. */
  lemma BranchTable(progress: Progress, a: string)
    ensures BranchOf(Declined, a) == Decline
    ensures progress == Maintained ==>
              (BranchOf(progress, a) == MaintainedDependent <==> HighAssist(a))
              && (BranchOf(progress, a) == MaintainedGuarded <==> LowAssist(a))
              && (BranchOf(progress, a) == MaintainedSteady <==> !HighAssist(a) && !LowAssist(a))
    ensures progress == Improved ==>
              (BranchOf(progress, a) == ImprovedGuarded <==> LowAssist(a))
              && (BranchOf(progress, a) == ImprovedIndependent <==> Independent(a))
              && (BranchOf(progress, a) == ImprovedAssisted <==> !LowAssist(a) && !Independent(a))
  {
  }

  /** The paragraph text of each row. */
  function AssessmentText(b: Branch, modeAssist: string, activity: string, deficit: string): string
  {
    "Assessment: " + Finding(b, modeAssist, activity, deficit)
  }

  function Finding(b: Branch, modeAssist: string, activity: string, deficit: string): string
  {
    match b
    case Decline =>
      "Patient demonstrated a decline in " + activity
      + " performance versus baseline, primarily exacerbated by " + deficit
      + ". Session required pivot to safety instruction and compensatory strategies, with patient requiring "
      + modeAssist + " to maintain safety."
    case MaintainedDependent =>
      "Functional status maintained during " + activity + ". Patient continues to require "
      + modeAssist + " secondary to " + deficit
      + ", necessitating skilled intervention to prevent complications and ensure positioning."
    case MaintainedGuarded =>
      "Patient maintained baseline during " + activity + ". " + deficit
      + " remains the primary limiting factor, requiring skilled cues to ensure carryover of techniques and prevent regression."
    case MaintainedSteady =>
      "Patient maintained baseline functional status in " + activity
      + ". Focus remains on consistency and building endurance to mitigate " + deficit + "."
    case ImprovedGuarded =>
      "Patient displayed improved functional tolerance during " + activity + ". Reduced impact of "
      + deficit + " allowed for greater independence, though " + modeAssist + " remains indicated to ensure safety."
    case ImprovedIndependent =>
      "Patient improved from baseline in " + activity
      + ", demonstrating increased efficiency. Focus remains on refining mechanics and generalizing skills to novel environments to fully address "
      + deficit + "."
    case ImprovedAssisted =>
      "Patient improved participation in " + activity + ". While " + modeAssist
      + " is still required, patient demonstrated improved motor planning and effort, specifically regarding "
      + deficit + "."
  }

  /** The assessment paragraph for a session's units. */
  function Assessment(lex: Lexicon, units: seq<Unit>, progress: Progress): string
  {
    AssessmentOf(lex, MostFrequent(Assists(units)), MostFrequent(AllDeficits(units)),
                 MostFrequent(Activities(units)), progress)
  }

  /** The assessment paragraph from the three most frequent values. */
  function AssessmentOf(lex: Lexicon, topAssist: Option<string>, topDeficit: Option<string>,
                        topActivity: Option<string>, progress: Progress): string
  {
    var modeAssist := ModeAssist(topAssist);
    AssessmentText(BranchOf(progress, modeAssist), modeAssist, CleanActivity(topActivity), CleanDeficit(lex, topDeficit))
  }

  /** Every row opens with "Assessment: ", so the paragraph is never blank. */
  lemma AssessmentNotBlank(b: Branch, modeAssist: string, activity: string, deficit: string)
    ensures !IsBlank(AssessmentText(b, modeAssist, activity, deficit))
  {
    LeadingLetter("Assessment: ", Finding(b, modeAssist, activity, deficit));
  }

  /** The statistics and the table, step by step: three counting objects,
      three reductions and the row the if-chain settles on. */
  method Assess(lex: Lexicon, units: seq<Unit>, progress: Progress) returns (assessment: string)
    ensures assessment == Assessment(lex, units, progress)
    ensures !IsBlank(assessment)
  {
    var topAssist := TopKey(Assists(units));
    var modeAssist := ModeAssist(topAssist);
    var topDeficitKey := TopKey(AllDeficits(units));
    var cleanDeficit := CleanDeficit(lex, topDeficitKey);
    var topActivityKey := TopKey(Activities(units));
    var cleanActivity := CleanActivity(topActivityKey);

    var row: Branch;
    if progress == Declined {
      row := Decline;
    } else if progress == Maintained {
      if HighAssist(modeAssist) {
        row := MaintainedDependent;
      } else if LowAssist(modeAssist) {
        row := MaintainedGuarded;
      } else {
        row := MaintainedSteady;
      }
    } else {
      if LowAssist(modeAssist) {
        row := ImprovedGuarded;
      } else if Independent(modeAssist) {
        row := ImprovedIndependent;
      } else {
        row := ImprovedAssisted;
      }
    }
    assert row == BranchOf(progress, modeAssist);
    assessment := AssessmentText(row, modeAssist, cleanActivity, cleanDeficit);
    AssessmentNotBlank(row, modeAssist, cleanActivity, cleanDeficit);
  }
}
