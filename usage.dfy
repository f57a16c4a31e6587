/**
 * `analyze_variable_usage` (utils/analyzer.py): count the placeholder
 * occurrences by name in a dictionary that remembers the pattern type of each
 * name's first occurrence, then list the names by non-increasing count.
 */
module Usage {
  import opened Placeholders
  import opened Grouping
  import opened Tally
  import opened Sorting
  import opened Seqs

  /** A value of `var_counts`: `{'count', 'pattern_type'}`. */
  datatype NameTally = NameTally(count: nat, patternType: string)

  /** An entry of the result: `{'name', 'pattern_type', 'count'}`. */
  datatype VariableCount = VariableCount(name: string, patternType: string, count: nat)

  function NameOf(v: VariableOccurrence): string {
    v.name
  }

  function CountOf(e: VariableCount): int {
    e.count
  }

  /** What the dictionary holds for `name` after counting `variables`. */
  function TallyFor(variables: seq<VariableOccurrence>, name: string): NameTally {
    var ms := Members(variables, NameOf, name);
    NameTally(|ms|, if ms == [] then "" else ms[0].patternType)
  }

  /** The dictionary's items, in its key order, as result entries. */
  function Entries(variables: seq<VariableOccurrence>, names: seq<string>): (es: seq<VariableCount>)
    ensures |es| == |names|
    ensures forall i :: 0 <= i < |names| ==>
              es[i] == VariableCount(names[i], TallyFor(variables, names[i]).patternType,
                                     TallyFor(variables, names[i]).count)
  {
    if names == [] then []
    else
      var t := TallyFor(variables, names[0]);
      [VariableCount(names[0], t.patternType, t.count)] + Entries(variables, names[1..])
  }

  /** What `analyze_variable_usage` returns. */
  function VariableUsage(variables: seq<VariableOccurrence>): seq<VariableCount> {
    SortDesc(Entries(variables, KeyOrder(variables, NameOf)), CountOf)
  }

  /** One step of the counting loop on the dictionary entry for `name`. */
  lemma TallyStep(xs: seq<VariableOccurrence>, x: VariableOccurrence, name: string)
    ensures TallyFor(xs + [x], name)
            == if x.name != name then TallyFor(xs, name)
               else if name in KeyOrder(xs, NameOf)
               then NameTally(TallyFor(xs, name).count + 1, TallyFor(xs, name).patternType)
               else NameTally(1, x.patternType)
  {
    assert (xs + [x])[..|xs|] == xs;
    KeyOrderMember(xs, NameOf, name);
    MembersNonEmpty(xs, NameOf, name);
  }

  /** One pass of the counting loop keeps every dictionary entry equal to its tally. */
  lemma CountsStep(xs: seq<VariableOccurrence>, x: VariableOccurrence,
                   before: map<string, NameTally>, after: map<string, NameTally>)
    requires forall k :: k in before <==> k in KeyOrder(xs, NameOf)
    requires forall k :: k in before ==> before[k] == TallyFor(xs, k)
    requires after == if x.name in before
                      then before[x.name := NameTally(before[x.name].count + 1, before[x.name].patternType)]
                      else before[x.name := NameTally(1, x.patternType)]
    ensures forall k :: k in after ==> after[k] == TallyFor(xs + [x], k)
  {
    forall k | k in after ensures after[k] == TallyFor(xs + [x], k) {
      TallyStep(xs, x, k);
    }
  }

  /**
   * `analyze_variable_usage`: the counting loop fills `var_counts` (its keys
   * in insertion order in `order`), then its items are sorted by count,
   * highest first.
   */
  method AnalyzeVariableUsage(variables: seq<VariableOccurrence>) returns (result: seq<VariableCount>)
    ensures result == VariableUsage(variables)
  {
    var order: seq<string> := [];
    var varCounts: map<string, NameTally> := map[];
    for i := 0 to |variables|
      invariant order == KeyOrder(variables[..i], NameOf)
      invariant forall k :: k in varCounts <==> k in order
      invariant forall k :: k in varCounts ==> varCounts[k] == TallyFor(variables[..i], k)
    {
      var v := variables[i];
      var name := v.name;
      TakeSnoc(variables, i);
      KeyOrderSnoc(variables[..i], v, NameOf);
      ghost var before := varCounts;
      if name in varCounts {
        varCounts := varCounts[name := NameTally(varCounts[name].count + 1, varCounts[name].patternType)];
      } else {
        varCounts := varCounts[name := NameTally(1, v.patternType)];
        order := order + [name];
      }
      CountsStep(variables[..i], v, before, varCounts);
    }
    assert variables[..|variables|] == variables;
    var items := seq(|order|, i requires 0 <= i < |order| =>
                       VariableCount(order[i], varCounts[order[i]].patternType, varCounts[order[i]].count));
    assert items == Entries(variables, order);
    result := SortDesc(items, CountOf);
  }

  /**
   * `e` is the entry for one name of `variables`: its count is the number of
   * occurrences of the name, and its pattern type is that of the name's first
   * occurrence.
   */
  predicate IsUsageOf(variables: seq<VariableOccurrence>, e: VariableCount) {
    && e.count == Count(variables, NameOf, e.name)
    && exists i :: 0 <= i < |variables| && variables[i].name == e.name && variables[i].patternType == e.patternType
                   && forall j :: 0 <= j < i ==> variables[j].name != e.name
  }

  lemma EntryIsUsage(variables: seq<VariableOccurrence>, name: string)
    requires name in Keys(variables, NameOf)
    ensures IsUsageOf(variables, VariableCount(name, TallyFor(variables, name).patternType,
                                               TallyFor(variables, name).count))
  {
    MembersNonEmpty(variables, NameOf, name);
    FirstMember(variables, NameOf, name);
  }

  /** A name has one entry: two entries for the same name are equal. */
  lemma UsageUnique(variables: seq<VariableOccurrence>, e1: VariableCount, e2: VariableCount)
    requires IsUsageOf(variables, e1) && IsUsageOf(variables, e2) && e1.name == e2.name
    ensures e1 == e2
  {
    var i1 :| 0 <= i1 < |variables| && variables[i1].name == e1.name && variables[i1].patternType == e1.patternType
              && forall j :: 0 <= j < i1 ==> variables[j].name != e1.name;
    var i2 :| 0 <= i2 < |variables| && variables[i2].name == e2.name && variables[i2].patternType == e2.patternType
              && forall j :: 0 <= j < i2 ==> variables[j].name != e2.name;
    assert !(i1 < i2) && !(i2 < i1);
  }

  /**
   * The result holds exactly the entries of the names that occur: each with
   * its number of occurrences and the pattern type of its first occurrence.
   */
  lemma UsageMember(variables: seq<VariableOccurrence>, e: VariableCount)
    ensures e in VariableUsage(variables) <==> IsUsageOf(variables, e)
  {
    var ks := KeyOrder(variables, NameOf);
    var es := Entries(variables, ks);
    SortDescPermutes(es, CountOf);
    assert e in VariableUsage(variables) <==> e in multiset(es);
    if e in es {
      var t :| 0 <= t < |es| && es[t] == e;
      KeyOrderMember(variables, NameOf, ks[t]);
      EntryIsUsage(variables, ks[t]);
    }
    if IsUsageOf(variables, e) {
      var i :| 0 <= i < |variables| && variables[i].name == e.name && variables[i].patternType == e.patternType
               && forall j :: 0 <= j < i ==> variables[j].name != e.name;
      assert NameOf(variables[i]) in Keys(variables, NameOf);
      KeyOrderMember(variables, NameOf, e.name);
      var t :| 0 <= t < |ks| && ks[t] == e.name;
      EntryIsUsage(variables, e.name);
      UsageUnique(variables, es[t], e);
    }
  }

  /** Every name that occurs has exactly one entry. */
  lemma UsageNamesDistinct(variables: seq<VariableOccurrence>)
    ensures var r := VariableUsage(variables);
            forall a, b :: 0 <= a < b < |r| ==> r[a].name != r[b].name
  {
    var r := VariableUsage(variables);
    var ks := KeyOrder(variables, NameOf);
    var es := Entries(variables, ks);
    KeyOrderDistinct(variables, NameOf);
    assert Distinct(es) by {
      forall a, b | 0 <= a < b < |es| ensures es[a] != es[b] {
        assert es[a].name == ks[a] && es[b].name == ks[b];
      }
    }
    SortDescPermutes(es, CountOf);
    forall a, b | 0 <= a < b < |r| ensures r[a].name != r[b].name {
      if r[a].name == r[b].name {
        UsageMember(variables, r[a]);
        UsageMember(variables, r[b]);
        UsageUnique(variables, r[a], r[b]);
        MultiplicityTwo(r, a, b);
        MultiplicityDistinct(es, r[a]);
      }
    }
  }

  lemma {:induction false} EntriesSum(variables: seq<VariableOccurrence>, names: seq<string>)
    ensures SumOf(Entries(variables, names), CountOf) == SumCounts(variables, NameOf, names)
  {
    if names != [] {
      EntriesSum(variables, names[1..]);
      var t := TallyFor(variables, names[0]);
      assert Entries(variables, names)[1..] == Entries(variables, names[1..]);
    }
  }

  /** The counts add up to the number of occurrences counted. */
  lemma UsageCountsSum(variables: seq<VariableOccurrence>)
    ensures SumOf(VariableUsage(variables), CountOf) == |variables|
  {
    var ks := KeyOrder(variables, NameOf);
    var es := Entries(variables, ks);
    SortDescPermutes(es, CountOf);
    SumOfPermutation(VariableUsage(variables), es, CountOf);
    EntriesSum(variables, ks);
    KeyOrderDistinct(variables, NameOf);
    forall i | 0 <= i < |variables| ensures NameOf(variables[i]) in ks {
      assert NameOf(variables[i]) in Keys(variables, NameOf);
      KeyOrderMember(variables, NameOf, NameOf(variables[i]));
    }
    SumCountsAll(variables, NameOf, ks);
  }

  /**
   * Counts never increase along the result, and names with equal counts keep
   * the order in which they were first seen.
   */
  lemma UsageOrder(variables: seq<VariableOccurrence>, c: int)
    ensures SortedDesc(VariableUsage(variables), CountOf)
    ensures WithWeight(VariableUsage(variables), CountOf, c)
            == WithWeight(Entries(variables, KeyOrder(variables, NameOf)), CountOf, c)
  {
    SortDescSorted(Entries(variables, KeyOrder(variables, NameOf)), CountOf);
    SortDescStable(Entries(variables, KeyOrder(variables, NameOf)), CountOf, c);
  }
}
