/** `get_cause_abbreviation` of process_new_data.py: a short label for a `Cause of Death` cell. */
module Causes {
  import opened Wrappers
  import opened PyStr
  import opened Frames

  /** The label of a missing cell. */
  const UnknownLabel := "Unknown"

  /** `get_cause_abbreviation(cause)`: `Unknown` for a missing cell, otherwise the chain of tests on `str(cause).lower()`. */
  function GetCauseAbbreviation(cause: Cell): string {
    match cause
    case None => UnknownLabel
    case Some(c) => Chain(Lower(c))
  }

  /** A bucket: the words that select it and the label it gives. */
  datatype Rule = Rule(words: seq<string>, abbreviation: string)

  /** The buckets in priority order. */
  const Rules: seq<Rule> := [
    Rule(["drown"], "Drowning"),
    Rule(["harsh", "environmental"], "Harsh conditions"),
    Rule(["vehicle", "accident"], "Vehicle accident"),
    Rule(["violence"], "Violence"),
    Rule(["sickness", "medical", "illness"], "Sickness"),
    Rule(["mixed", "unknown"], "Mixed or unknown")
  ]

  /** Some word of the rule occurs in `l`. */
  predicate Selects(r: Rule, l: string) {
    exists w :: w in r.words && Contains(l, w)
  }

  /** The abbreviation of the first rule in `rules` that selects `l`, if any. */
  function FirstRule(rules: seq<Rule>, l: string): Option<string> {
    if rules == [] then None
    else if Selects(rules[0], l) then Some(rules[0].abbreviation)
    else FirstRule(rules[1..], l)
  }

  /** `FirstRule` fails exactly when no rule selects the text, and otherwise answers with a selecting rule that no earlier rule precedes. */
  lemma {:induction false} FirstRuleIsFirst(rules: seq<Rule>, l: string)
    ensures FirstRule(rules, l).None? <==> forall i :: 0 <= i < |rules| ==> !Selects(rules[i], l)
    ensures FirstRule(rules, l).Some? ==>
      exists i :: 0 <= i < |rules| && FirstRule(rules, l).value == rules[i].abbreviation
        && Selects(rules[i], l) && forall j :: 0 <= j < i ==> !Selects(rules[j], l)
  {
    if rules != [] && !Selects(rules[0], l) {
      FirstRuleIsFirst(rules[1..], l);
      var r := FirstRule(rules[1..], l);
      if r.Some? {
        var i :| 0 <= i < |rules[1..]| && r.value == rules[1..][i].abbreviation && Selects(rules[1..][i], l)
          && forall j :: 0 <= j < i ==> !Selects(rules[1..][j], l);
        assert rules[i + 1] == rules[1..][i];
        assert forall j :: 1 <= j < i + 1 ==> rules[j] == rules[1..][j - 1];
      } else {
        assert forall i :: 1 <= i < |rules| ==> rules[i] == rules[1..][i - 1];
      }
    }
  }

  /** One step of `FirstRule` down a table. */
  lemma FirstRuleStep(rules: seq<Rule>, k: nat, l: string)
    requires k < |rules|
    ensures FirstRule(rules[k..], l) ==
      if Selects(rules[k], l) then Some(rules[k].abbreviation) else FirstRule(rules[k + 1..], l)
  {
    assert rules[k..][1..] == rules[k + 1..];
  }

  /** What the drowning rule tests. */
  lemma Rule0Tests(l: string)
    ensures Selects(Rules[0], l) <==> Contains(l, "drown")
  {
    assert Rules[0].words == ["drown"];
  }

  /** What the harsh-conditions rule tests. */
  lemma Rule1Tests(l: string)
    ensures Selects(Rules[1], l) <==> Contains(l, "harsh") || Contains(l, "environmental")
  {
    assert Rules[1].words == ["harsh", "environmental"];
  }

  /** What the vehicle-accident rule tests. */
  lemma Rule2Tests(l: string)
    ensures Selects(Rules[2], l) <==> Contains(l, "vehicle") || Contains(l, "accident")
  {
    assert Rules[2].words == ["vehicle", "accident"];
  }

  /** What the violence rule tests. */
  lemma Rule3Tests(l: string)
    ensures Selects(Rules[3], l) <==> Contains(l, "violence")
  {
    assert Rules[3].words == ["violence"];
  }

  /** What the sickness rule tests. */
  lemma Rule4Tests(l: string)
    ensures Selects(Rules[4], l) <==> Contains(l, "sickness") || Contains(l, "medical") || Contains(l, "illness")
  {
    assert Rules[4].words == ["sickness", "medical", "illness"];
  }

  /** What the mixed-or-unknown rule tests. */
  lemma Rule5Tests(l: string)
    ensures Selects(Rules[5], l) <==> Contains(l, "mixed") || Contains(l, "unknown")
  {
    assert Rules[5].words == ["mixed", "unknown"];
  }

  /** The `if`/`elif` chain: the first bucket one of whose words occurs in the lower-cased text, else the text in title case. */
  function Chain(l: string): string {
    if Contains(l, "drown") then "Drowning"
    else if Contains(l, "harsh") || Contains(l, "environmental") then "Harsh conditions"
    else if Contains(l, "vehicle") || Contains(l, "accident") then "Vehicle accident"
    else if Contains(l, "violence") then "Violence"
    else if Contains(l, "sickness") || Contains(l, "medical") || Contains(l, "illness") then "Sickness"
    else if Contains(l, "mixed") || Contains(l, "unknown") then "Mixed or unknown"
    else Title(l)
  }

  /** The script's chain of tests is the first-matching-rule lookup over the table, with the title-case fallback. */
  lemma CauseFollowsRuleOrder(c: string)
    ensures GetCauseAbbreviation(Some(c)) ==
      match FirstRule(Rules, Lower(c))
      case Some(a) => a
      case None => Title(Lower(c))
  {
    var l := Lower(c);
    assert Rules[0..] == Rules;
    FirstRuleStep(Rules, 0, l);
    Rule0Tests(l);
    if !Contains(l, "drown") {
      FirstRuleStep(Rules, 1, l);
      Rule1Tests(l);
      if !Selects(Rules[1], l) {
        FirstRuleStep(Rules, 2, l);
        Rule2Tests(l);
        if !Selects(Rules[2], l) {
          FirstRuleStep(Rules, 3, l);
          Rule3Tests(l);
          if !Selects(Rules[3], l) {
            FirstRuleStep(Rules, 4, l);
            Rule4Tests(l);
            if !Selects(Rules[4], l) {
              FirstRuleStep(Rules, 5, l);
              Rule5Tests(l);
              assert Rules[6..] == [];
            }
          }
        }
      }
    }
  }

  /** The first selecting rule decides: what the priority order promises. */
  lemma PriorityOrder(c: string, i: nat)
    requires i < |Rules| && Selects(Rules[i], Lower(c))
    requires forall j :: 0 <= j < i ==> !Selects(Rules[j], Lower(c))
    ensures GetCauseAbbreviation(Some(c)) == Rules[i].abbreviation
  {
    CauseFollowsRuleOrder(c);
    FirstRuleIsFirst(Rules, Lower(c));
  }

  /** Text that mentions drowning is a drowning, whatever else it mentions. */
  lemma DrowningComesFirst(c: string)
    requires Contains(Lower(c), "drown")
    ensures GetCauseAbbreviation(Some(c)) == "Drowning"
  {
    Rule0Tests(Lower(c));
    PriorityOrder(c, 0);
  }

  /** Drowning and violence together: the earlier bucket wins. */
  lemma DrownedAfterViolence()
    ensures var c := "drowned after violence";
      Contains(Lower(c), "violence") && GetCauseAbbreviation(Some(c)) == "Drowning"
  {
    var c := "drowned after violence";
    LowerExample();
    assert OccursAt(c, "drown", 0);
    assert OccursAt(c, "violence", 14);
    DrowningComesFirst(c);
  }

  /** The example is already lower case. */
  lemma LowerExample()
    ensures Lower("drowned after violence") == "drowned after violence"
  {
    LowerNoCapitals("drowned after violence");
  }

  /** The fallback keeps the text up to case: lower-casing it gives back the lower-cased cell. */
  lemma FallbackKeepsText(c: string)
    requires FirstRule(Rules, Lower(c)).None?
    ensures Lower(GetCauseAbbreviation(Some(c))) == Lower(c)
    ensures GetCauseAbbreviation(Some(c)) == Title(Lower(c))
  {
    CauseFollowsRuleOrder(c);
    TitleKeepsLowerCase(Lower(c));
    LowerIdempotent(c);
  }

  /** The fallback is already in title case. */
  lemma FallbackIsTitled(c: string)
    requires FirstRule(Rules, Lower(c)).None?
    ensures Title(GetCauseAbbreviation(Some(c))) == GetCauseAbbreviation(Some(c))
  {
    FallbackKeepsText(c);
    var l := Lower(c);
    TitleIgnoresCase(Title(l));
    TitleKeepsLowerCase(l);
    LowerIdempotent(c);
  }

  /** Abbreviating a fallback again changes nothing. */
  lemma FallbackIsStable(c: string)
    requires FirstRule(Rules, Lower(c)).None?
    ensures GetCauseAbbreviation(Some(GetCauseAbbreviation(Some(c)))) == GetCauseAbbreviation(Some(c))
  {
    var r := GetCauseAbbreviation(Some(c));
    FallbackKeepsText(c);
    FallbackIsTitled(c);
    CauseFollowsRuleOrder(r);
  }

  /** Text that starts with a word of some rule is selected. */
  lemma SelectedByPrefix(l: string, k: nat, w: string)
    requires k < |Rules| && w in Rules[k].words && OccursAt(l, w, 0)
    ensures FirstRule(Rules, l).Some?
  {
    FirstRuleIsFirst(Rules, l);
    assert Selects(Rules[k], l);
  }

  /** The fixed labels, lower-cased, each hold a word of some rule. */
  lemma LabelsAreSelected(c: string)
    requires c in [UnknownLabel, "Drowning", "Harsh conditions", "Vehicle accident", "Violence", "Sickness", "Mixed or unknown"]
    ensures FirstRule(Rules, Lower(c)).Some?
  {
    if c == UnknownLabel {
      LabelSelected0();
    } else if c == "Drowning" {
      LabelSelected1();
    } else if c == "Harsh conditions" {
      LabelSelected2();
    } else if c == "Vehicle accident" {
      LabelSelected3();
    } else if c == "Violence" {
      LabelSelected4();
    } else if c == "Sickness" {
      LabelSelected5();
    } else {
      LabelSelected6();
    }
  }

  /** `UnknownLabel` lower-cased holds `unknown`. */
  lemma LabelSelected0()
    ensures FirstRule(Rules, Lower(UnknownLabel)).Some?
  {
    LowerKnown(UnknownLabel, "unknown");
    assert Rules[5].words[1] == "unknown";
    SelectedByPrefix("unknown", 5, "unknown");
  }

  /** `Drowning` lower-cased holds `drown`. */
  lemma LabelSelected1()
    ensures FirstRule(Rules, Lower("Drowning")).Some?
  {
    LowerKnown("Drowning", "drowning");
    assert Rules[0].words[0] == "drown";
    SelectedByPrefix("drowning", 0, "drown");
  }

  /** `Harsh conditions` lower-cased holds `harsh`. */
  lemma LabelSelected2()
    ensures FirstRule(Rules, Lower("Harsh conditions")).Some?
  {
    LowerKnown("Harsh conditions", "harsh conditions");
    assert Rules[1].words[0] == "harsh";
    SelectedByPrefix("harsh conditions", 1, "harsh");
  }

  /** `Vehicle accident` lower-cased holds `vehicle`. */
  lemma LabelSelected3()
    ensures FirstRule(Rules, Lower("Vehicle accident")).Some?
  {
    LowerKnown("Vehicle accident", "vehicle accident");
    assert Rules[2].words[0] == "vehicle";
    SelectedByPrefix("vehicle accident", 2, "vehicle");
  }

  /** `Violence` lower-cased holds `violence`. */
  lemma LabelSelected4()
    ensures FirstRule(Rules, Lower("Violence")).Some?
  {
    LowerKnown("Violence", "violence");
    assert Rules[3].words[0] == "violence";
    SelectedByPrefix("violence", 3, "violence");
  }

  /** `Sickness` lower-cased holds `sickness`. */
  lemma LabelSelected5()
    ensures FirstRule(Rules, Lower("Sickness")).Some?
  {
    LowerKnown("Sickness", "sickness");
    assert Rules[4].words[0] == "sickness";
    SelectedByPrefix("sickness", 4, "sickness");
  }

  /** `Mixed or unknown` lower-cased holds `mixed`. */
  lemma LabelSelected6()
    ensures FirstRule(Rules, Lower("Mixed or unknown")).Some?
  {
    LowerKnown("Mixed or unknown", "mixed or unknown");
    assert Rules[5].words[0] == "mixed";
    SelectedByPrefix("mixed or unknown", 5, "mixed");
  }

  /** Text that lacks one of a word's characters does not contain the word. */
  lemma MissingChar(l: string, w: string, ch: char)
    requires ch in w && ch !in l
    ensures !Contains(l, w)
  {
    forall i: nat | i <= |l| ensures !OccursAt(l, w, i) {
      if OccursAt(l, w, i) {
        OccurrenceChars(l, w, i);
      }
    }
  }

  /** Every character of a word occurs in text that contains the word. */
  lemma OccurrenceChars(l: string, w: string, i: nat)
    requires OccursAt(l, w, i)
    ensures forall k :: 0 <= k < |w| ==> w[k] in l
  {
    forall k | 0 <= k < |w| ensures w[k] in l {
      assert l[i..i + |w|][k] == l[i + k];
    }
  }

  /** `mixed or unknown` holds every letter of `drown` but not the word: its one `d` is followed by a space. */
  lemma MixedLacksDrown()
    ensures !Contains("mixed or unknown", "drown")
  {
    var l := "mixed or unknown";
    forall i: nat | i <= |l| ensures !OccursAt(l, "drown", i) {
      if i + 5 <= |l| {
        if i == 4 {
          assert l[i..i + 5][1] == l[5] == ' ';
        } else {
          assert l[i..i + 5][0] == l[i] != 'd';
        }
      }
    }
  }

  /** The drowning label abbreviates to itself. */
  lemma DrowningFixed()
    ensures GetCauseAbbreviation(Some("Drowning")) == "Drowning"
  {
    LowerKnown("Drowning", "drowning");
    assert OccursAt("drowning", "drown", 0);
  }

  /** The harsh-conditions label abbreviates to itself. */
  lemma HarshFixed()
    ensures GetCauseAbbreviation(Some("Harsh conditions")) == "Harsh conditions"
  {
    var l := "harsh conditions";
    LowerKnown("Harsh conditions", l);
    MissingChar(l, "drown", 'w');
    assert OccursAt(l, "harsh", 0);
  }

  /** The vehicle-accident label abbreviates to itself. */
  lemma VehicleFixed()
    ensures GetCauseAbbreviation(Some("Vehicle accident")) == "Vehicle accident"
  {
    var l := "vehicle accident";
    LowerKnown("Vehicle accident", l);
    MissingChar(l, "drown", 'w');
    MissingChar(l, "harsh", 'r');
    MissingChar(l, "environmental", 'r');
    assert OccursAt(l, "vehicle", 0);
  }

  /** The violence label abbreviates to itself. */
  lemma ViolenceFixed()
    ensures GetCauseAbbreviation(Some("Violence")) == "Violence"
  {
    var l := "violence";
    LowerKnown("Violence", l);
    MissingChar(l, "drown", 'w');
    MissingChar(l, "harsh", 'h');
    MissingChar(l, "environmental", 'r');
    MissingChar(l, "vehicle", 'h');
    MissingChar(l, "accident", 'a');
    assert OccursAt(l, "violence", 0);
  }

  /** The sickness label abbreviates to itself. */
  lemma SicknessFixed()
    ensures GetCauseAbbreviation(Some("Sickness")) == "Sickness"
  {
    var l := "sickness";
    LowerKnown("Sickness", l);
    MissingChar(l, "drown", 'w');
    MissingChar(l, "harsh", 'h');
    MissingChar(l, "environmental", 'r');
    MissingChar(l, "vehicle", 'v');
    MissingChar(l, "accident", 'a');
    MissingChar(l, "violence", 'v');
    assert OccursAt(l, "sickness", 0);
  }

  /** The mixed-or-unknown label abbreviates to itself. */
  lemma MixedFixed()
    ensures GetCauseAbbreviation(Some("Mixed or unknown")) == "Mixed or unknown"
  {
    var l := "mixed or unknown";
    LowerKnown("Mixed or unknown", l);
    MixedLacksDrown();
    MixedLacksLaterWords();
    assert OccursAt(l, "mixed", 0);
  }

  /** `mixed or unknown` holds no word of the buckets after drowning and before its own. */
  lemma MixedLacksLaterWords()
    ensures !Contains("mixed or unknown", "harsh") && !Contains("mixed or unknown", "environmental")
    ensures !Contains("mixed or unknown", "vehicle") && !Contains("mixed or unknown", "accident")
    ensures !Contains("mixed or unknown", "violence") && !Contains("mixed or unknown", "sickness")
    ensures !Contains("mixed or unknown", "medical") && !Contains("mixed or unknown", "illness")
  {
    var l := "mixed or unknown";
    assert 'h' !in l && 'v' !in l && 'a' !in l && 's' !in l && 'l' !in l;
    MissingChar(l, "harsh", 'h');
    MissingChar(l, "environmental", 'v');
    MissingChar(l, "vehicle", 'v');
    MissingChar(l, "accident", 'a');
    MissingChar(l, "violence", 'v');
    MissingChar(l, "sickness", 's');
    MissingChar(l, "medical", 'a');
    MissingChar(l, "illness", 'l');
  }

  /** Abbreviating a present cause twice gives what abbreviating it once gave. */
  lemma CauseIdempotent(c: string)
    ensures GetCauseAbbreviation(Some(GetCauseAbbreviation(Some(c)))) == GetCauseAbbreviation(Some(c))
  {
    CauseFollowsRuleOrder(c);
    FirstRuleIsFirst(Rules, Lower(c));
    if FirstRule(Rules, Lower(c)).None? {
      FallbackIsStable(c);
    } else {
      var i :| 0 <= i < |Rules| && FirstRule(Rules, Lower(c)).value == Rules[i].abbreviation;
      if i == 0 { DrowningFixed(); }
      else if i == 1 { HarshFixed(); }
      else if i == 2 { VehicleFixed(); }
      else if i == 3 { ViolenceFixed(); }
      else if i == 4 { SicknessFixed(); }
      else { MixedFixed(); }
    }
  }

  /** Lower-casing a label whose first letter alone is a capital. */
  lemma LowerKnown(c: string, l: string)
    requires |c| == |l| > 0 && IsUpperLetter(c[0]) && l[0] == LowerChar(c[0])
    requires forall i :: 1 <= i < |c| ==> c[i] == l[i] && !IsUpperLetter(c[i])
    ensures Lower(c) == l
  {
  }

  /** The fallback never collapses to one of the fixed labels. */
  lemma FallbackIsNoLabel(c: string)
    requires FirstRule(Rules, Lower(c)).None?
    ensures GetCauseAbbreviation(Some(c)) !in [UnknownLabel, "Drowning", "Harsh conditions", "Vehicle accident", "Violence", "Sickness", "Mixed or unknown"]
  {
    var r := GetCauseAbbreviation(Some(c));
    FallbackKeepsText(c);
    if r in [UnknownLabel, "Drowning", "Harsh conditions", "Vehicle accident", "Violence", "Sickness", "Mixed or unknown"] {
      LabelsAreSelected(r);
    }
  }
}
