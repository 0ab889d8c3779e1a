/**
 * Grouping of the recorded units: first by billing code into a plain object
 * (App.tsx:33-37), then, inside each code, by a composite key string whose
 * groups absorb their units' tasks, cues and deficits without repeats
 * (App.tsx:44-62).
 */
module Grouping {
  import opened Text
  import opened JsKeys
  import opened Clinical

  // ---------------------------------------------------------------------
  // Billing-code grouping
  // ---------------------------------------------------------------------

  /** The billing codes of the units, one per unit. */
  function Cpts(units: seq<Unit>): (r: seq<string>)
    ensures |r| == |units|
    ensures forall i :: 0 <= i < |units| ==> r[i] == units[i].cpt
  {
    if units == [] then [] else Cpts(units[..|units| - 1]) + [units[|units| - 1].cpt]
  }

  /** The units reported under code `c`, in recorded order. */
  function WithCpt(units: seq<Unit>, c: string): (r: seq<Unit>)
    ensures forall u :: u in r <==> u in units && u.cpt == c
  {
    if units == [] then []
    else
      var init := units[..|units| - 1];
      var last := units[|units| - 1];
      assert forall u :: u in units <==> u in init || u == last;
      WithCpt(init, c) + (if last.cpt == c then [last] else [])
  }

  lemma CptSnoc(units: seq<Unit>, u: Unit, c: string)
    ensures Cpts(units + [u]) == Cpts(units) + [u.cpt]
    ensures WithCpt(units + [u], c) == WithCpt(units, c) + (if u.cpt == c then [u] else [])
  {
    assert (units + [u])[..|units|] == units;
  }

  lemma InCpts(units: seq<Unit>, c: string)
    ensures c in Cpts(units) <==> WithCpt(units, c) != []
  {
    if c in Cpts(units) {
      var i :| 0 <= i < |units| && Cpts(units)[i] == c;
      assert units[i] in WithCpt(units, c);
    }
    if WithCpt(units, c) != [] {
      var u := WithCpt(units, c)[0];
      assert u in units;
      var i :| 0 <= i < |units| && units[i] == u;
      assert Cpts(units)[i] == c;
    }
  }

  /** The order in which the billing codes come out of the grouping object. */
  function CptOrder(units: seq<Unit>): seq<string>
  {
    KeyOrder(Cpts(units))
  }

  /** The grouping object after the units `done`: one entry per billing code
      holding that code's units, under the object's enumeration order. */
  ghost predicate GroupedSoFar(r: Record<seq<Unit>>, done: seq<Unit>)
  {
    && r.Valid() && r.keys == KeyOrder(Cpts(done))
    && forall c :: c in r.entries ==> r.entries[c] == WithCpt(done, c)
  }

  /** One step of the fill loop: after adding unit `s`, the object again holds
      the units of every code seen so far, under its enumeration order. */
  lemma CptStep(r: Record<seq<Unit>>, r1: Record<seq<Unit>>, r2: Record<seq<Unit>>, pre: seq<Unit>, s: Unit)
    requires GroupedSoFar(r, pre)
    requires r1 == if s.cpt in r.entries then r else r.Set(s.cpt, [])
    requires r1.Valid() && s.cpt in r1.entries
    requires r2 == r1.Set(s.cpt, r1.entries[s.cpt] + [s])
    ensures GroupedSoFar(r2, pre + [s])
  {
    CptStepKeys(r, r1, r2, pre, s);
    CptStepFirst(r, r1, pre, s);
    forall c | c in r2.entries ensures r2.entries[c] == WithCpt(pre + [s], c) {
      CptSnoc(pre, s, c);
      if c != s.cpt {
        assert r2.entries[c] == r1.entries[c] == r.entries[c];
      }
    }
  }

  lemma CptStepKeys(r: Record<seq<Unit>>, r1: Record<seq<Unit>>, r2: Record<seq<Unit>>, pre: seq<Unit>, s: Unit)
    requires r.Valid() && r.keys == KeyOrder(Cpts(pre))
    requires r1 == if s.cpt in r.entries then r else r.Set(s.cpt, [])
    requires r1.Valid() && s.cpt in r1.entries
    requires r2 == r1.Set(s.cpt, r1.entries[s.cpt] + [s])
    ensures r2.Valid() && r2.keys == KeyOrder(Cpts(pre + [s]))
  {
    CptSnoc(pre, s, s.cpt);
    KeyOrderSnoc(Cpts(pre), s.cpt);
  }

  lemma CptStepFirst(r: Record<seq<Unit>>, r1: Record<seq<Unit>>, pre: seq<Unit>, s: Unit)
    requires r.Valid() && r.keys == KeyOrder(Cpts(pre))
    requires forall c :: c in r.entries ==> r.entries[c] == WithCpt(pre, c)
    requires r1 == if s.cpt in r.entries then r else r.Set(s.cpt, [])
    ensures s.cpt in r1.entries && r1.entries[s.cpt] == WithCpt(pre, s.cpt)
  {
    if s.cpt !in r.entries {
      InCpts(pre, s.cpt);
      assert s.cpt !in Cpts(pre);
      assert WithCpt(pre, s.cpt) == [];
    }
  }

  /** The `cptGroups` fill loop: one entry per billing code holding that code's
      units in recorded order, the codes in the object's enumeration order. */
  method GroupByCpt(selections: seq<Unit>) returns (cptGroups: Record<seq<Unit>>)
    ensures cptGroups.Valid()
    ensures cptGroups.keys == CptOrder(selections)
    ensures forall c :: c in cptGroups.entries ==> cptGroups.entries[c] == WithCpt(selections, c)
  {
    cptGroups := EmptyRecord();
    assert selections[..0] == [];
    assert Cpts([]) == [];
    for i := 0 to |selections|
      invariant GroupedSoFar(cptGroups, selections[..i])
    {
      var s := selections[i];
      TakeOneMore(selections, i);
      ghost var before := cptGroups;
      if s.cpt !in cptGroups.entries {
        cptGroups := cptGroups.Set(s.cpt, []);
      }
      ghost var created := cptGroups;
      cptGroups := cptGroups.Set(s.cpt, cptGroups.entries[s.cpt] + [s]);
      CptStep(before, created, cptGroups, selections[..i], s);
    }
    assert selections[..|selections|] == selections;
    assert GroupedSoFar(cptGroups, selections);
  }

  // ---------------------------------------------------------------------
  // Composite-key grouping inside one billing code
  // ---------------------------------------------------------------------

  /** `${phase}-${assist}-${deficits.join('|')}-${params || ''}`. */
  function GroupKey(u: Unit): string
  {
    u.phase + "-" + u.assist + "-" + Join(u.deficits, "|") + "-" + ParamsText(u)
  }

  /** A composite key contains a '-', so it is never an array index and the
      groups keep the order in which their keys first appear. */
  lemma GroupKeyNotIndex(u: Unit)
    ensures !IsArrayIndex(GroupKey(u))
  {
    var k := GroupKey(u);
    assert k[|u.phase|] == '-';
  }

  /** `task (params)` when the unit carries parameters, otherwise the task. */
  function TaskDisplay(u: Unit): string
  {
    if ParamsText(u) != "" then u.task + " (" + ParamsText(u) + ")" else u.task
  }

  /** The composite keys of the units, one per unit. */
  function Keys(units: seq<Unit>): (r: seq<string>)
    ensures |r| == |units|
    ensures forall i :: 0 <= i < |units| ==> r[i] == GroupKey(units[i])
  {
    if units == [] then [] else Keys(units[..|units| - 1]) + [GroupKey(units[|units| - 1])]
  }

  /** The task displays of the units, one per unit. */
  function Tasks(units: seq<Unit>): (r: seq<string>)
    ensures |r| == |units|
    ensures forall i :: 0 <= i < |units| ==> r[i] == TaskDisplay(units[i])
  {
    if units == [] then [] else Tasks(units[..|units| - 1]) + [TaskDisplay(units[|units| - 1])]
  }

  /** The units whose composite key is `k`, in recorded order. */
  function WithKey(units: seq<Unit>, k: string): (r: seq<Unit>)
    ensures forall u :: u in r <==> u in units && GroupKey(u) == k
  {
    if units == [] then []
    else
      var init := units[..|units| - 1];
      var last := units[|units| - 1];
      assert forall u :: u in units <==> u in init || u == last;
      WithKey(init, k) + (if GroupKey(last) == k then [last] else [])
  }

  lemma KeySnoc(units: seq<Unit>, u: Unit, k: string)
    ensures Keys(units + [u]) == Keys(units) + [GroupKey(u)]
    ensures Tasks(units + [u]) == Tasks(units) + [TaskDisplay(u)]
    ensures WithKey(units + [u], k) == WithKey(units, k) + (if GroupKey(u) == k then [u] else [])
  {
    assert (units + [u])[..|units|] == units;
  }

  lemma InKeys(units: seq<Unit>, k: string)
    ensures k in Keys(units) <==> WithKey(units, k) != []
  {
    if k in Keys(units) {
      var i :| 0 <= i < |units| && Keys(units)[i] == k;
      assert units[i] in WithKey(units, k);
    }
    if WithKey(units, k) != [] {
      var u := WithKey(units, k)[0];
      assert u in units;
      var i :| 0 <= i < |units| && units[i] == u;
      assert Keys(units)[i] == k;
    }
  }

  /** The merged group of key `k`: phase and assistance of its first unit, and
      the distinct task displays, cues and deficits of its units in order of
      first appearance. */
  function GroupFor(units: seq<Unit>, k: string): Group
    requires k in Keys(units)
  {
    InKeys(units, k);
    var members := WithKey(units, k);
    Group(members[0].phase, members[0].assist,
          Dedup(Tasks(members)), Dedup(AllCues(members)), Dedup(AllDeficits(members)))
  }

  /** One merged group per distinct composite key, in order of first appearance. */
  function MergedGroups(units: seq<Unit>): (gs: seq<Group>)
    ensures |gs| == |Dedup(Keys(units))|
  {
    var ks := Dedup(Keys(units));
    seq(|ks|, i requires 0 <= i < |ks| => GroupFor(units, ks[i]))
  }

  /** Dedup of a list extended by `xs`, pushing each element of `xs` unless present. */
  method PushAllNew(acc: seq<string>, xs: seq<string>, ghost before: seq<string>) returns (r: seq<string>)
    requires acc == Dedup(before)
    ensures r == Dedup(before + xs)
  {
    r := acc;
    assert before + xs[..0] == before;
    for j := 0 to |xs|
      invariant r == Dedup(before + xs[..j])
    {
      assert before + xs[..j + 1] == (before + xs[..j]) + [xs[j]];
      DedupSnoc(before + xs[..j], xs[j]);
      if xs[j] !in r {
        r := r + [xs[j]];
      }
    }
    assert xs[..|xs|] == xs;
  }

  /** The reduce accumulator after the units `done`: one entry per composite
      key seen, holding that key's merged group, keys in first-seen order. */
  ghost predicate MergedSoFar(acc: Record<Group>, done: seq<Unit>)
  {
    && acc.Valid()
    && acc.keys == Dedup(Keys(done))
    && forall k :: k in acc.entries ==> k in Keys(done) && acc.entries[k] == GroupFor(done, k)
  }

  /** The group a unit lands in before it pushes anything: the existing group
      of its key, or a fresh empty one carrying its phase and assistance. */
  lemma MergeEnter(acc: Record<Group>, acc1: Record<Group>, done: seq<Unit>, unit: Unit)
    requires MergedSoFar(acc, done)
    requires acc1 == if GroupKey(unit) in acc.entries then acc
                     else acc.Set(GroupKey(unit), Group(unit.phase, unit.assist, [], [], []))
    ensures acc1.Valid() && GroupKey(unit) in acc1.entries
    ensures acc1.keys == Dedup(Keys(done + [unit]))
    ensures forall k :: k in acc1.entries && k != GroupKey(unit) ==> acc1.entries[k] == acc.entries[k]
    ensures var g := acc1.entries[GroupKey(unit)];
            var members := WithKey(done, GroupKey(unit));
            && g.phase == GroupFor(done + [unit], GroupKey(unit)).phase
            && g.assist == GroupFor(done + [unit], GroupKey(unit)).assist
            && g.tasks == Dedup(Tasks(members))
            && g.cues == Dedup(AllCues(members))
            && g.deficits == Dedup(AllDeficits(members))
  {
    MergeEnterKeys(acc, acc1, done, unit);
    var key := GroupKey(unit);
    if key !in acc.entries {
      FirstOfKey(done, unit);
    } else {
      LaterOfKey(done, unit);
    }
  }

  lemma MergeEnterKeys(acc: Record<Group>, acc1: Record<Group>, done: seq<Unit>, unit: Unit)
    requires MergedSoFar(acc, done)
    requires acc1 == if GroupKey(unit) in acc.entries then acc
                     else acc.Set(GroupKey(unit), Group(unit.phase, unit.assist, [], [], []))
    ensures acc1.Valid() && GroupKey(unit) in acc1.entries
    ensures acc1.keys == Dedup(Keys(done + [unit]))
    ensures forall k :: k in acc1.entries && k != GroupKey(unit) ==> acc1.entries[k] == acc.entries[k]
  {
    var key := GroupKey(unit);
    KeySnoc(done, unit, key);
    DedupSnoc(Keys(done), key);
    if key !in acc.entries {
      GroupKeyNotIndex(unit);
      assert key !in Dedup(Keys(done));
      assert acc1.keys == acc.keys + [key];
    } else {
      assert key in Dedup(Keys(done));
    }
  }

  lemma FirstOfKey(done: seq<Unit>, unit: Unit)
    requires GroupKey(unit) !in Keys(done)
    ensures GroupKey(unit) in Keys(done + [unit])
    ensures WithKey(done, GroupKey(unit)) == []
    ensures GroupFor(done + [unit], GroupKey(unit)).phase == unit.phase
    ensures GroupFor(done + [unit], GroupKey(unit)).assist == unit.assist
  {
    var key := GroupKey(unit);
    KeySnoc(done, unit, key);
    InKeys(done, key);
    assert WithKey(done + [unit], key) == [unit];
  }

  lemma LaterOfKey(done: seq<Unit>, unit: Unit)
    requires GroupKey(unit) in Keys(done)
    ensures GroupKey(unit) in Keys(done + [unit])
    ensures GroupFor(done + [unit], GroupKey(unit)).phase == GroupFor(done, GroupKey(unit)).phase
    ensures GroupFor(done + [unit], GroupKey(unit)).assist == GroupFor(done, GroupKey(unit)).assist
  {
    var key := GroupKey(unit);
    KeySnoc(done, unit, key);
    InKeys(done, key);
    assert WithKey(done + [unit], key)[0] == WithKey(done, key)[0];
  }

  /** Storing the group with the unit's pushes restores the accumulator
      invariant over one more unit. */
  lemma MergeLeave(acc: Record<Group>, acc1: Record<Group>, acc2: Record<Group>, done: seq<Unit>, unit: Unit, g: Group)
    requires MergedSoFar(acc, done)
    requires acc1.Valid() && GroupKey(unit) in acc1.entries
    requires acc1.keys == Dedup(Keys(done + [unit]))
    requires forall k :: k in acc1.entries && k != GroupKey(unit) ==> acc1.entries[k] == acc.entries[k]
    requires var members := WithKey(done, GroupKey(unit));
             && g.phase == GroupFor(done + [unit], GroupKey(unit)).phase
             && g.assist == GroupFor(done + [unit], GroupKey(unit)).assist
             && g.tasks == AppendNew(Dedup(Tasks(members)), TaskDisplay(unit))
             && g.cues == Dedup(AllCues(members) + unit.cues)
             && g.deficits == Dedup(AllDeficits(members) + unit.deficits)
    requires acc2 == acc1.Set(GroupKey(unit), g)
    ensures MergedSoFar(acc2, done + [unit])
  {
    var key := GroupKey(unit);
    GroupForSnoc(done, unit);
    forall k | k in acc2.entries
      ensures k in Keys(done + [unit]) && acc2.entries[k] == GroupFor(done + [unit], k)
    {
      if k != key {
        GroupForOther(done, unit, k);
      }
    }
  }

  /** The group of the unit's own key after the unit: its earlier members'
      group with the unit's task display, cues and deficits pushed. */
  lemma GroupForSnoc(done: seq<Unit>, unit: Unit)
    ensures GroupKey(unit) in Keys(done + [unit])
    ensures var members := WithKey(done, GroupKey(unit));
            var g := GroupFor(done + [unit], GroupKey(unit));
            && g.tasks == AppendNew(Dedup(Tasks(members)), TaskDisplay(unit))
            && g.cues == Dedup(AllCues(members) + unit.cues)
            && g.deficits == Dedup(AllDeficits(members) + unit.deficits)
  {
    var key := GroupKey(unit);
    var members := WithKey(done, key);
    KeySnoc(done, unit, key);
    AllSnoc(members, unit);
    KeySnoc(members, unit, key);
    DedupSnoc(Tasks(members), TaskDisplay(unit));
  }

  /** A later unit leaves the groups of the other keys as they were. */
  lemma GroupForOther(done: seq<Unit>, unit: Unit, k: string)
    requires k in Keys(done) && k != GroupKey(unit)
    ensures k in Keys(done + [unit]) && GroupFor(done + [unit], k) == GroupFor(done, k)
  {
    KeySnoc(done, unit, k);
    assert Keys(done + [unit]) == Keys(done) + [GroupKey(unit)];
    assert WithKey(done + [unit], k) == WithKey(done, k);
  }

  /** The enumerated values of the final accumulator are the merged groups. */
  lemma MergeValues(acc: Record<Group>, units: seq<Unit>)
    requires MergedSoFar(acc, units)
    ensures acc.Values() == MergedGroups(units)
  {
  }

  /** The `reduce` over one code's units: a plain object keyed by composite key,
      each new key creating an empty group, then every unit pushing its task
      display, cues and deficits into its group unless already there. */
  method MergeGroups(units: seq<Unit>) returns (groups: seq<Group>)
    ensures groups == MergedGroups(units)
  {
    var acc: Record<Group> := EmptyRecord();
    for i := 0 to |units|
      invariant MergedSoFar(acc, units[..i])
    {
      var unit := units[i];
      var key := GroupKey(unit);
      TakeOneMore(units, i);
      ghost var before := acc;
      if key !in acc.entries {
        acc := acc.Set(key, Group(unit.phase, unit.assist, [], [], []));
      }
      MergeEnter(before, acc, units[..i], unit);
      ghost var members := WithKey(units[..i], key);
      var g := acc.entries[key];
      var taskDisplay := TaskDisplay(unit);
      if taskDisplay !in g.tasks {
        g := g.(tasks := g.tasks + [taskDisplay]);
      }
      var cues := PushAllNew(g.cues, unit.cues, AllCues(members));
      var deficits := PushAllNew(g.deficits, unit.deficits, AllDeficits(members));
      g := g.(cues := cues, deficits := deficits);
      ghost var entered := acc;
      acc := acc.Set(key, g);
      MergeLeave(before, entered, acc, units[..i], unit, g);
    }
    assert units[..|units|] == units;
    groups := acc.Values();
    MergeValues(acc, units);
  }

  // ---------------------------------------------------------------------
  // What merging keeps and adds
  // ---------------------------------------------------------------------

  /** Group `g` lists the task display, cues and deficits of unit `u`. */
  predicate Holds(g: Group, u: Unit)
  {
    && TaskDisplay(u) in g.tasks
    && (forall c :: c in u.cues ==> c in g.cues)
    && (forall d :: d in u.deficits ==> d in g.deficits)
  }

  /** A group holds what each unit of its key carries. */
  lemma GroupForKeeps(units: seq<Unit>, u: Unit)
    requires u in units
    ensures GroupKey(u) in Keys(units) && Holds(GroupFor(units, GroupKey(u)), u)
  {
    var k := GroupKey(u);
    var n :| 0 <= n < |units| && units[n] == u;
    assert Keys(units)[n] == k;
    var members := WithKey(units, k);
    var m :| 0 <= m < |members| && members[m] == u;
    assert Tasks(members)[m] == TaskDisplay(u);
  }

  /** A group lists nothing that no unit of its key carries, and lists
      nothing twice. */
  lemma GroupForFrom(units: seq<Unit>, k: string)
    requires k in Keys(units)
    ensures var g := GroupFor(units, k);
            && (forall t :: t in g.tasks ==> exists u :: u in units && GroupKey(u) == k && TaskDisplay(u) == t)
            && (forall c :: c in g.cues ==> exists u :: u in units && GroupKey(u) == k && c in u.cues)
            && (forall d :: d in g.deficits ==> exists u :: u in units && GroupKey(u) == k && d in u.deficits)
            && Distinct(g.tasks) && Distinct(g.cues) && Distinct(g.deficits)
  {
    var members := WithKey(units, k);
    var ts := Tasks(members);
    forall t | t in ts ensures exists u :: u in members && TaskDisplay(u) == t {
      var i :| 0 <= i < |ts| && ts[i] == t;
      assert members[i] in members;
    }
  }

  /** Every unit's task display, cues and deficits appear in the group of its
      key; keys are distinct, so that is the only group of the key. */
  lemma MergeKeepsEverything(units: seq<Unit>, u: Unit)
    requires u in units
    ensures exists i :: 0 <= i < |MergedGroups(units)| && Dedup(Keys(units))[i] == GroupKey(u)
              && Holds(MergedGroups(units)[i], u)
  {
    var ks := Dedup(Keys(units));
    GroupForKeeps(units, u);
    var i :| 0 <= i < |ks| && ks[i] == GroupKey(u);
    assert MergedGroups(units)[i] == GroupFor(units, GroupKey(u));
  }

  /** Each group takes its phase and assistance from a unit of its key, and
      everything it lists was carried by a unit of its key. */
  lemma MergeAddsNothing(units: seq<Unit>, i: nat)
    requires i < |MergedGroups(units)|
    ensures var g := MergedGroups(units)[i];
            var k := Dedup(Keys(units))[i];
            && (exists u :: u in units && GroupKey(u) == k && u.phase == g.phase && u.assist == g.assist)
            && (forall t :: t in g.tasks ==> exists u :: u in units && GroupKey(u) == k && TaskDisplay(u) == t)
            && (forall c :: c in g.cues ==> exists u :: u in units && GroupKey(u) == k && c in u.cues)
            && (forall d :: d in g.deficits ==> exists u :: u in units && GroupKey(u) == k && d in u.deficits)
  {
    var k := Dedup(Keys(units))[i];
    assert k in Keys(units);
    var g := GroupFor(units, k);
    assert MergedGroups(units)[i] == g;
    GroupForFrom(units, k);
    InKeys(units, k);
    var w := WithKey(units, k)[0];
    assert w in WithKey(units, k);
    assert w in units && GroupKey(w) == k && w.phase == g.phase && w.assist == g.assist;
  }

  /** When phases and assistance levels contain no '-', equal composite keys
      mean equal phase and assistance, so all units of a group share them. */
  lemma KeyFixesPhaseAssist(u: Unit, v: Unit)
    requires '-' !in u.phase && '-' !in v.phase && '-' !in u.assist && '-' !in v.assist
    requires GroupKey(u) == GroupKey(v)
    ensures u.phase == v.phase && u.assist == v.assist
  {
    var ju, jv := Join(u.deficits, "|") + "-" + ParamsText(u), Join(v.deficits, "|") + "-" + ParamsText(v);
    var ru, rv := u.assist + "-" + ju, v.assist + "-" + jv;
    assert GroupKey(u) == u.phase + "-" + ru;
    assert GroupKey(v) == v.phase + "-" + rv;
    FieldBeforeDash(u.phase, ru, v.phase, rv);
    FieldBeforeDash(u.assist, ju, v.assist, jv);
  }

  lemma FieldBeforeDash(a: string, x: string, b: string, y: string)
    requires '-' !in a && '-' !in b && a + "-" + x == b + "-" + y
    ensures a == b && x == y
  {
    var s := a + "-" + x;
    FirstOccurrenceAfter(a, "-", x, 0);
    FirstOccurrenceAfter(b, "-", y, 0);
    assert |a| == |b|;
    assert a == s[..|a|] == b;
    assert x == s[|a| + 1..] == y;
  }
}
