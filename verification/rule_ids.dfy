/** What a rule id says about a rule. */
module RuleIds {
  import opened Text
  import opened Events
  import opened AlertLog
  import opened AlertEngine

  predicate SameThresholds(a: Rule, b: Rule) {
    match a
    case HolidayRule => b.HolidayRule?
    case DstRule(w, c) => b.DstRule? && b.warningDays == w && b.criticalDays == c
    case ExpiryRule(w, _) => b.ExpiryRule? && b.warningDays == w
    case ReleaseRule(w, c, _) => b.ReleaseRule? && b.warningDays == w && b.criticalDays == c
    case OtherRule(_, _) => false
  }

  lemma PairText(prefix: string, w: int, c: int, w2: int, c2: int)
    requires prefix + IntText(w) + ":" + IntText(c) == prefix + IntText(w2) + ":" + IntText(c2)
    ensures w == w2 && c == c2
  {
    hide IntText;
    var s := prefix + IntText(w) + ":" + IntText(c);
    assert s[|prefix|..] == IntText(w) + [':'] + IntText(c);
    assert s[|prefix|..] == IntText(w2) + [':'] + IntText(c2);
    IntTextHasNoColon(w);
    IntTextHasNoColon(w2);
    CutUnique(IntText(w), IntText(c), IntText(w2), IntText(c2), ':');
    IntTextInjective(w, w2);
    IntTextInjective(c, c2);
  }

  /** Two proximity rules share a rule id exactly when they are of one kind with the same
      thresholds; the tracked underlyings or releases are not part of it. */
  lemma RuleIdExactly(a: Rule, b: Rule)
    requires !a.OtherRule? && !b.OtherRule?
    ensures RuleId(a) == RuleId(b) <==> SameThresholds(a, b)
  {
    hide IntText;
    assert RuleId(a)[0] == 'h' <==> a.HolidayRule?;
    assert RuleId(b)[0] == 'h' <==> b.HolidayRule?;
    assert RuleId(a)[0] == 'd' <==> a.DstRule?;
    assert RuleId(b)[0] == 'd' <==> b.DstRule?;
    assert |RuleId(a)| > 1 && |RuleId(b)| > 1;
    assert RuleId(a)[0] == 'e' && RuleId(a)[1] == 'x' <==> a.ExpiryRule?;
    assert RuleId(b)[0] == 'e' && RuleId(b)[1] == 'x' <==> b.ExpiryRule?;
    if RuleId(a) == RuleId(b) {
      match a
      case HolidayRule =>
      case DstRule(w, c) => PairText("dst_shift_proximity:", w, c, b.warningDays, b.criticalDays);
      case ExpiryRule(w, _) =>
        assert RuleId(a)[17..] == IntText(w) && RuleId(b)[17..] == IntText(b.warningDays);
        IntTextInjective(w, b.warningDays);
      case ReleaseRule(w, c, _) => PairText("economic_release_proximity:", w, c, b.warningDays, b.criticalDays);
    }
  }

  /** Rules of one kind with the same thresholds count down to the same day and grade alike. */
  lemma SameGrades(a: Rule, b: Rule, e: Event, days: int)
    requires SameThresholds(a, b)
    ensures Classify(a, days) == Classify(b, days) && Due(a, e) == Due(b, e)
  {
  }
}
