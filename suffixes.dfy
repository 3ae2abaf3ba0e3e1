/**
 * The disaggregation suffixes of an indicator label and the livestock
 * category each one stands for (data/db_updater.py, the if/elif chain in
 * `clean_estimates`). The suffixes and their categories are kept in an
 * ordered rule table; the chain walks it from the front and the first
 * rule whose suffix occurs in the label wins.
 */
module Suffixes {
  import opened Wrappers
  import opened Text

  /** One rule of the chain: the substring looked for and the category it sets. */
  datatype Rule = Rule(suffix: string, category: string)

  /** The rules, in the order the chain tests them. */
  const Rules: seq<Rule> := [
    Rule(" - large ruminants, small ruminants, poultry", "All livestock"),
    Rule(" - large ruminants", "Large ruminants"),
    Rule(" - small ruminants", "Small ruminants"),
    Rule(" - poultry", "Poultry"),
    Rule(" - cows", "Cows"),
    Rule(" - buffalos", "Buffalos")
  ]

  /** The label that gets a category without carrying a suffix. */
  const MilkLabel: string := "Milk productivity"
  const MilkCategory: string := "Large ruminants"

  /** A label after the chain has run, and the category it set, if any. */
  datatype Tagged = Tagged(text: string, category: Option<string>)

  /**
   * The chain from rule `from` on: the first of these rules whose suffix
   * occurs in the label has that suffix removed from the label (every
   * occurrence, as `str.replace` does) and sets its category; when none
   * occurs, the exact label "Milk productivity" gets the category "Large
   * ruminants" and keeps its text.
   */
  function CategorizeFrom(name: string, from: nat): (t: Tagged)
    requires from <= |Rules|
    ensures t.category.None? ==> t.text == name
    decreases |Rules| - from
  {
    if from == |Rules| then
      if name == MilkLabel then Tagged(name, Some(MilkCategory)) else Tagged(name, None)
    else if Contains(name, Rules[from].suffix) then
      Tagged(RemoveAll(name, Rules[from].suffix), Some(Rules[from].category))
    else
      CategorizeFrom(name, from + 1)
  }

  /** The whole chain, tried from the first rule. */
  function Categorize(name: string): (t: Tagged)
    ensures t.category.None? ==> t.text == name
  {
    CategorizeFrom(name, 0)
  }

  /**
   * The chain never lengthens a label, and a label it files under a category
   * is shortened, except "Milk productivity", which keeps its text.
   */
  lemma CategorizeShortens(name: string)
    ensures |Categorize(name).text| <= |name|
    ensures Categorize(name).text == name ==> Categorize(name).category.None? || name == MilkLabel
  {
    var k := if Contains(name, Rules[0].suffix) then 0
      else if Contains(name, Rules[1].suffix) then 1
      else if Contains(name, Rules[2].suffix) then 2
      else if Contains(name, Rules[3].suffix) then 3
      else if Contains(name, Rules[4].suffix) then 4
      else if Contains(name, Rules[5].suffix) then 5
      else |Rules|;
    if k < |Rules| {
      FirstRuleWins(name, k);
      RemoveAllShortens(name, Rules[k].suffix);
    } else {
      NoRuleFires(name);
    }
  }

  /** The rule that fires is the first one whose suffix occurs: its suffix is removed and its category set. */
  lemma FirstRuleWins(name: string, i: nat)
    requires i < |Rules| && Contains(name, Rules[i].suffix)
    requires forall j :: 0 <= j < i ==> !Contains(name, Rules[j].suffix)
    ensures Categorize(name) == Tagged(RemoveAll(name, Rules[i].suffix), Some(Rules[i].category))
  {
    FirstRuleWinsFrom(name, 0, i);
  }

  /** `FirstRuleWins` for the chain started at rule `from`: the rules before `i` are passed over. */
  lemma {:induction false} FirstRuleWinsFrom(name: string, from: nat, i: nat)
    requires from <= i < |Rules| && Contains(name, Rules[i].suffix)
    requires forall j :: from <= j < i ==> !Contains(name, Rules[j].suffix)
    ensures CategorizeFrom(name, from) == Tagged(RemoveAll(name, Rules[i].suffix), Some(Rules[i].category))
    decreases i - from
  {
    if from < i {
      FirstRuleWinsFrom(name, from + 1, i);
    }
  }

  /** With no suffix present only "Milk productivity" gets a category, and no label is changed. */
  lemma NoRuleFires(name: string)
    requires forall j :: 0 <= j < |Rules| ==> !Contains(name, Rules[j].suffix)
    ensures Categorize(name).text == name
    ensures Categorize(name).category == if name == MilkLabel then Some(MilkCategory) else None
  {
    NoRuleFiresFrom(name, 0);
  }

  /** `NoRuleFires` for the chain started at rule `from`. */
  lemma {:induction false} NoRuleFiresFrom(name: string, from: nat)
    requires from <= |Rules|
    requires forall j :: from <= j < |Rules| ==> !Contains(name, Rules[j].suffix)
    ensures CategorizeFrom(name, from) == if name == MilkLabel then Tagged(name, Some(MilkCategory)) else Tagged(name, None)
    decreases |Rules| - from
  {
    if from < |Rules| {
      NoRuleFiresFrom(name, from + 1);
    }
  }

  /**
   * The order matters: every label carrying the "all livestock" suffix also
   * carries the "large ruminants" one, so only testing the longer suffix
   * first gives it the category "All livestock".
   */
  lemma AllLivestockBeforeLargeRuminants(name: string)
    requires Contains(name, Rules[0].suffix)
    ensures Contains(name, Rules[1].suffix)
    ensures Categorize(name).category == Some("All livestock")
  {
    var p0, p1 := Rules[0].suffix, Rules[1].suffix;
    ContainsOccurs(name, p0);
    var i :| OccursAt(name, p0, i);
    assert p0[..|p1|] == p1;
    assert name[i..i + |p1|] == name[i..i + |p0|][..|p1|];
    assert OccursAt(name, p1, i);
    ContainsOccurs(name, p1);
    FirstRuleWins(name, 0);
  }

  /** Each suffix is a space, a dash, then text without a further dash. */
  predicate DashShaped(p: string) {
    |p| >= 2 && p[0] == ' ' && p[1] == '-' && forall m :: 2 <= m < |p| ==> p[m] != '-'
  }

  lemma RulesDashShaped(j: nat)
    requires j < |Rules|
    ensures DashShaped(Rules[j].suffix)
  {
    if j == 0 {
      AllLivestockDashShaped();
    } else if j == 1 {
      assert DashShaped(" - large ruminants");
    } else if j == 2 {
      assert DashShaped(" - small ruminants");
    } else if j == 3 {
      assert DashShaped(" - poultry");
    } else if j == 4 {
      assert DashShaped(" - cows");
    } else {
      assert DashShaped(" - buffalos");
    }
  }

  /** The longest suffix, checked in three ranges of positions. */
  lemma AllLivestockDashShaped()
    ensures DashShaped(Rules[0].suffix)
  {
    var p := " - large ruminants, small ruminants, poultry";
    assert forall m :: 2 <= m < 15 ==> p[m] != '-';
    assert forall m :: 15 <= m < 30 ==> p[m] != '-';
    assert forall m :: 30 <= m < |p| ==> p[m] != '-';
  }

  /** A dash-shaped suffix cannot start where the next character is not a dash. */
  lemma NotBeforeNonDash(s: string, p: string, i: int)
    requires DashShaped(p)
    requires 0 <= i + 1 < |s| ==> s[i + 1] != '-'
    ensures !OccursAt(s, p, i)
  {
    if 0 <= i && i + |p| <= |s| {
      assert s[i..i + |p|][1] == s[i + 1];
    }
  }

  /** Every suffix holds a '-', so a label without one matches no rule. */
  lemma NoDashNoSuffix(name: string)
    requires '-' !in name
    ensures forall j :: 0 <= j < |Rules| ==> !Contains(name, Rules[j].suffix)
  {
    forall j | 0 <= j < |Rules| ensures !Contains(name, Rules[j].suffix) {
      forall i ensures !OccursAt(name, Rules[j].suffix, i) {
        RulesDashShaped(j);
        NotBeforeNonDash(name, Rules[j].suffix, i);
      }
      ContainsOccurs(name, Rules[j].suffix);
    }
  }

  /** The exact label "Milk productivity" gets "Large ruminants" and keeps its text. */
  lemma MilkProductivity()
    ensures Categorize(MilkLabel) == Tagged(MilkLabel, Some(MilkCategory))
  {
    NoDashNoSuffix(MilkLabel);
    NoRuleFires(MilkLabel);
  }

  /**
   * A label made of a dash-free stem and one suffix from the table loses the
   * suffix and gets that suffix's category, provided no earlier suffix
   * occurs in it.
   */
  lemma StemWithSuffix(stem: string, i: nat)
    requires i < |Rules| && '-' !in stem
    requires forall j :: 0 <= j < i ==> !Contains(stem + Rules[i].suffix, Rules[j].suffix)
    ensures Categorize(stem + Rules[i].suffix) == Tagged(stem, Some(Rules[i].category))
  {
    var p := Rules[i].suffix;
    var name := stem + p;
    RulesDashShaped(i);
    assert OccursAt(name, p, |stem|);
    forall k | k != |stem| ensures !OccursAt(name, p, k) {
      if 0 <= k + 1 < |name| {
        if k + 1 < |stem| {
          assert name[k + 1] == stem[k + 1];
        } else {
          assert name[k + 1] == p[k + 1 - |stem|];
        }
      }
      NotBeforeNonDash(name, p, k);
    }
    ContainsOccurs(name, p);
    RemoveTrailing(stem, p);
    FirstRuleWins(name, i);
  }

  /** "Milk productivity - cows" becomes "Milk productivity" with category "Cows": the suffix is tested before the exact label. */
  lemma MilkProductivityCows()
    ensures Categorize(MilkLabel + " - cows") == Tagged(MilkLabel, Some("Cows"))
  {
    var name := MilkLabel + Rules[4].suffix;
    forall j | 0 <= j < 4 ensures !Contains(name, Rules[j].suffix) {
      forall k ensures !OccursAt(name, Rules[j].suffix, k) {
        RulesDashShaped(j);
        if k + 1 < |MilkLabel| {
          if 0 <= k + 1 {
            assert name[k + 1] == MilkLabel[k + 1];
          }
          NotBeforeNonDash(name, Rules[j].suffix, k);
        } else {
          assert |Rules[j].suffix| > |name| - |MilkLabel|;
        }
      }
      ContainsOccurs(name, Rules[j].suffix);
    }
    StemWithSuffix(MilkLabel, 4);
  }
}
