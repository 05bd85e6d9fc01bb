/** Properties of the rule engine: what `_find_matching_emails` selects,
    how the predicates of one field relate to each other, where the engine
    is more permissive than its tables suggest, and the cases the unit
    tests of `tests/test_rule_engine.py` pin down. */
module RuleEngineProps {
  import opened Wrappers
  import opened Config
  import Text
  import Json
  import Time
  import Database
  import Actions
  import opened RuleEngine

  /** The condition object `{"field": .., "predicate": .., "value": ..}`. */
  function ConditionOf(f: Field, p: Predicate, v: Json.Value): Members {
    [("field", Json.Str(f.Name())), ("predicate", Json.Str(p.Name())), ("value", v)]
  }

  lemma ConditionOfValidates(f: Field, p: Predicate, v: Json.Value)
    ensures Json.Truthy(v) ==> ValidateCondition(ConditionOf(f, p, v)) == Ok(Condition(f, p, v))
    ensures !Json.Truthy(v) ==> ValidateCondition(ConditionOf(f, p, v)) == Err(EmptyValue)
  {
    var a, b, c := ("field", Json.Str(f.Name())), ("predicate", Json.Str(p.Name())), ("value", v);
    assert ConditionOf(f, p, v) == [a, b] + [c];
    assert [a, b] == [a] + [b];
    assert [a] == [] + [a];
    Json.LookupAppend([a, b], "field", "value", v);
    Json.LookupAppend([a], "field", "predicate", Json.Str(p.Name()));
    Json.LookupAppend([], "field", "field", Json.Str(f.Name()));
    Json.LookupAppend([a, b], "predicate", "value", v);
    Json.LookupAppend([a], "predicate", "predicate", Json.Str(p.Name()));
    Json.LookupAppend([a, b], "value", "value", v);
    FieldNameDenotes(f);
    PredicateNameDenotes(p);
  }

  // ---------------------------------------------------------------------
  // Selection

  /** The ALL/ANY test on the result list agrees with the logical reading of
      the rule: `all(...)` is every condition holding, `any(...)` is some
      condition holding. */
  lemma CombineIffRuleHolds(e: Database.Email, conds: seq<Members>, ptype: Json.Value, env: Env)
    requires AllValid(conds)
    ensures EvalAll(e, conds, env).Ok?
    ensures Combine(ptype, EvalAll(e, conds, env).value) <==> RuleHolds(e, conds, ptype, env)
  {
    EvalAllValues(e, conds, env);
    var results := EvalAll(e, conds, env).value;
    if ptype == Json.Str("ALL") {
      if false in results {
        var i :| 0 <= i < |results| && results[i] == false;
        assert !EvalValid(e, ValidateCondition(conds[i]).value, env);
      }
    } else if ptype == Json.Str("ANY") {
      if true in results {
        var i :| 0 <= i < |results| && results[i] == true;
        assert EvalValid(e, ValidateCondition(conds[i]).value, env);
      } else {
        assert forall i :: 0 <= i < |conds| ==> !EvalValid(e, ValidateCondition(conds[i]).value, env) by {
          forall i | 0 <= i < |conds| ensures !EvalValid(e, ValidateCondition(conds[i]).value, env) {
            assert results[i] in results;
          }
        }
      }
    }
  }

  /** The source's own test for keeping an email: its result list
      combines to true. */
  predicate Kept(e: Database.Email, conds: seq<Members>, ptype: Json.Value, env: Env) {
    EvalAll(e, conds, env).Ok? && Combine(ptype, EvalAll(e, conds, env).value)
  }

  /** `idx` lists, in increasing order, the positions of `xs` whose element
      is kept, and `r` is those elements. */
  ghost predicate SelectsAt<T>(xs: seq<T>, r: seq<T>, idx: seq<nat>, keep: T -> bool) {
    && |idx| == |r|
    && (forall k :: 0 <= k < |idx| ==> idx[k] < |xs| && r[k] == xs[idx[k]])
    && (forall k, l :: 0 <= k < l < |idx| ==> idx[k] < idx[l])
    && (forall i :: 0 <= i < |xs| ==> (i in idx <==> keep(xs[i])))
  }

  /** Every position moved one place on. */
  function Shift(positions: seq<nat>): (s: seq<nat>)
    ensures |s| == |positions| && forall k :: 0 <= k < |positions| ==> s[k] == positions[k] + 1
  {
    seq(|positions|, k requires 0 <= k < |positions| => positions[k] + 1)
  }

  lemma ShiftMembers(positions: seq<nat>, i: nat)
    ensures i + 1 in Shift(positions) <==> i in positions
    ensures 0 !in Shift(positions)
  {
    if i in positions {
      var k :| 0 <= k < |positions| && positions[k] == i;
      assert Shift(positions)[k] == i + 1;
    }
  }

  lemma SelectsConsPositions<T>(x: T, xs: seq<T>, r: seq<T>, rest: seq<nat>, keep: T -> bool, d: nat)
    requires SelectsAt(xs, r, rest, keep)
    requires d == if keep(x) then 1 else 0
    ensures var idx := (if keep(x) then [0] else []) + Shift(rest);
            var r2 := (if keep(x) then [x] else []) + r;
            forall k :: 0 <= k < |idx| ==> idx[k] < |[x] + xs| && r2[k] == ([x] + xs)[idx[k]]
  {
    var idx := (if keep(x) then [0] else []) + Shift(rest);
    var r2 := (if keep(x) then [x] else []) + r;
    forall k | 0 <= k < |idx| ensures idx[k] < |[x] + xs| && r2[k] == ([x] + xs)[idx[k]] {
      if k >= d {
        assert idx[k] == rest[k - d] + 1 && r2[k] == r[k - d];
      }
    }
  }

  lemma SelectsConsOrdered<T>(x: T, xs: seq<T>, r: seq<T>, rest: seq<nat>, keep: T -> bool, d: nat)
    requires SelectsAt(xs, r, rest, keep)
    requires d == if keep(x) then 1 else 0
    ensures var idx := (if keep(x) then [0] else []) + Shift(rest);
            forall k, l :: 0 <= k < l < |idx| ==> idx[k] < idx[l]
  {
    var idx := (if keep(x) then [0] else []) + Shift(rest);
    forall k, l | 0 <= k < l < |idx| ensures idx[k] < idx[l] {
      if k >= d {
        assert idx[k] == rest[k - d] + 1 && idx[l] == rest[l - d] + 1;
      }
    }
  }

  lemma SelectsConsMembers<T>(x: T, xs: seq<T>, r: seq<T>, rest: seq<nat>, keep: T -> bool)
    requires SelectsAt(xs, r, rest, keep)
    ensures var idx := (if keep(x) then [0] else []) + Shift(rest);
            forall i :: 0 <= i < |[x] + xs| ==> (i in idx <==> keep(([x] + xs)[i]))
  {
    var all := [x] + xs;
    var idx := (if keep(x) then [0] else []) + Shift(rest);
    forall i | 0 <= i < |all| ensures i in idx <==> keep(all[i]) {
      ShiftMembers(rest, if i == 0 then 0 else i - 1);
      if i > 0 {
        assert all[i] == xs[i - 1];
        assert i in idx <==> i in Shift(rest);
      }
    }
  }

  /** Putting an element in front of a selection: the old positions move
      one place on, and the new element is kept exactly when `keep` says so. */
  lemma SelectsCons<T>(x: T, xs: seq<T>, r: seq<T>, rest: seq<nat>, keep: T -> bool)
    returns (idx: seq<nat>)
    requires SelectsAt(xs, r, rest, keep)
    ensures SelectsAt([x] + xs, (if keep(x) then [x] else []) + r, idx, keep)
  {
    idx := (if keep(x) then [0] else []) + Shift(rest);
    SelectsConsPositions(x, xs, r, rest, keep, if keep(x) then 1 else 0);
    SelectsConsOrdered(x, xs, r, rest, keep, if keep(x) then 1 else 0);
    SelectsConsMembers(x, xs, r, rest, keep);
  }

  /** One step of the search loop: the first email is kept exactly when its
      results combine to true, ahead of whatever the rest of the list yields. */
  lemma FindMatchingStep(emails: seq<Database.Email>, conds: seq<Members>, ptype: Json.Value, env: Env)
    requires AllValid(conds) && |emails| > 0
    ensures FindMatching(emails, conds, ptype, env).Ok? && FindMatching(emails[1..], conds, ptype, env).Ok?
    ensures FindMatching(emails, conds, ptype, env).value ==
      (if Kept(emails[0], conds, ptype, env) then [emails[0]] else []) + FindMatching(emails[1..], conds, ptype, env).value
  {
  }

  /** `_find_matching_emails` keeps, in their original order, exactly the
      emails whose condition results combine to true: `idx` lists the
      positions kept. */
  lemma {:induction false} FindMatchingKeeps(emails: seq<Database.Email>, conds: seq<Members>, ptype: Json.Value, env: Env)
    returns (idx: seq<nat>)
    requires AllValid(conds)
    ensures FindMatching(emails, conds, ptype, env).Ok?
    ensures SelectsAt(emails, FindMatching(emails, conds, ptype, env).value, idx, e => Kept(e, conds, ptype, env))
    decreases |emails|
  {
    if |emails| == 0 {
      idx := [];
    } else {
      var rest := FindMatchingKeeps(emails[1..], conds, ptype, env);
      FindMatchingStep(emails, conds, ptype, env);
      idx := SelectsCons(emails[0], emails[1..], FindMatching(emails[1..], conds, ptype, env).value, rest, e => Kept(e, conds, ptype, env));
      assert [emails[0]] + emails[1..] == emails;
    }
  }

  /** The same selection, stated against the logical reading of the rule:
      the emails kept are exactly those for which every condition holds
      (ALL) or some condition holds (ANY). */
  lemma FindMatchingSelects(emails: seq<Database.Email>, conds: seq<Members>, ptype: Json.Value, env: Env)
    returns (idx: seq<nat>)
    requires AllValid(conds)
    ensures FindMatching(emails, conds, ptype, env).Ok?
    ensures SelectsAt(emails, FindMatching(emails, conds, ptype, env).value, idx, e => RuleHolds(e, conds, ptype, env))
  {
    idx := FindMatchingKeeps(emails, conds, ptype, env);
    forall e | true ensures Kept(e, conds, ptype, env) == RuleHolds(e, conds, ptype, env) {
      CombineIffRuleHolds(e, conds, ptype, env);
    }
  }

  /** With no conditions, ALL selects every email (`all([])` is true) and
      ANY selects none (`any([])` is false). */
  lemma {:induction false} NoConditions(emails: seq<Database.Email>, env: Env)
    ensures FindMatching(emails, [], Json.Str("ALL"), env) == Ok(emails)
    ensures FindMatching(emails, [], Json.Str("ANY"), env) == Ok([])
    decreases |emails|
  {
    if |emails| > 0 {
      NoConditions(emails[1..], env);
      assert EvalAll(emails[0], [], env) == Ok([]);
      assert Combine(Json.Str("ALL"), []) && !Combine(Json.Str("ANY"), []);
      var none: seq<Database.Email> := [];
      assert FindMatching(emails, [], Json.Str("ANY"), env) == Ok(none + none);
      assert none + none == none;
      assert [emails[0]] + emails[1..] == emails;
    }
  }

  /** A predicate type other than the strings "ALL" and "ANY" — "all",
      null, a number — is not rejected; it silently selects nothing. */
  lemma {:induction false} OtherPredicateTypeSelectsNothing(emails: seq<Database.Email>, conds: seq<Members>, ptype: Json.Value, env: Env)
    requires AllValid(conds)
    requires ptype != Json.Str("ALL") && ptype != Json.Str("ANY")
    ensures FindMatching(emails, conds, ptype, env) == Ok([])
    decreases |emails|
  {
    if |emails| > 0 {
      OtherPredicateTypeSelectsNothing(emails[1..], conds, ptype, env);
      assert !Combine(ptype, EvalAll(emails[0], conds, env).value);
      var none: seq<Database.Email> := [];
      assert FindMatching(emails, conds, ptype, env) == Ok(none + none);
      assert none + none == none;
    }
  }

  /** A document without a "predicate" member behaves as one that says
      "ALL". */
  lemma DefaultPredicateIsAll(ruleset: Members)
    requires !Json.HasKey(ruleset, "predicate")
    ensures PredicateType(ruleset) == PredicateType(ruleset + [("predicate", Json.Str("ALL"))]) == Json.Str("ALL")
  {
  }

  // ---------------------------------------------------------------------
  // Evaluation of one condition

  /** For a string value and a text field holding a string, `contains` and
      `not_contains` give opposite answers, and so do `equals` and
      `not_equals`. */
  lemma TextPredicatesComplement(e: Database.Email, f: Field, v: string, env: Env)
    requires f.IsText() && TextOf(e, f).Some? && v != ""
    ensures var c := EvaluateCondition(e, ConditionOf(f, Contains, Json.Str(v)), env);
            var n := EvaluateCondition(e, ConditionOf(f, NotContains, Json.Str(v)), env);
            c.Ok? && n.Ok? && c.value == !n.value
    ensures var c := EvaluateCondition(e, ConditionOf(f, Equals, Json.Str(v)), env);
            var n := EvaluateCondition(e, ConditionOf(f, NotEquals, Json.Str(v)), env);
            c.Ok? && n.Ok? && c.value == !n.value
  {
    ConditionOfValidates(f, Contains, Json.Str(v));
    ConditionOfValidates(f, NotContains, Json.Str(v));
    ConditionOfValidates(f, Equals, Json.Str(v));
    ConditionOfValidates(f, NotEquals, Json.Str(v));
  }

  /** A text field the store holds as NULL fails every predicate, the
      negative ones included. */
  lemma MissingTextIsFalse(e: Database.Email, m: Members, env: Env)
    requires ValidateCondition(m).Ok?
    requires var c := ValidateCondition(m).value; c.field.IsText() && TextOf(e, c.field).None?
    ensures EvaluateCondition(e, m, env) == Ok(false)
  {
  }

  /** The expected flag is true exactly for the value "true" in any case;
      `equals` and `not_equals` then compare it with the stored flag and
      give opposite answers. */
  lemma BooleanPredicates(isRead: bool, v: string)
    ensures EvalBool(isRead, Equals, Json.Str(v)) <==> (isRead <==> Text.Lower(v) == "true")
    ensures EvalBool(isRead, NotEquals, Json.Str(v)) == !EvalBool(isRead, Equals, Json.Str(v))
    ensures Text.Lower(v) != "true" ==> (EvalBool(isRead, Equals, Json.Str(v)) <==> !isRead)
  {
  }

  /** A non-string value or a predicate other than `equals`/`not_equals` on
      `is_read` is false rather than an error. */
  lemma BooleanOddCasesFalse(isRead: bool, p: Predicate, v: Json.Value)
    requires !v.Str? || (p != Equals && p != NotEquals)
    ensures !EvalBool(isRead, p, v)
  {
  }

  /** `less_than_days` and `greater_than_days` with the same day count never
      both hold; when the timestamp can be compared they split the line at
      the cutoff, which itself satisfies neither. */
  lemma DatePredicatesSplitAtCutoff(received: Option<string>, v: Json.Value, env: Env)
    ensures !(EvalDate(received, LessThanDays, v, env) && EvalDate(received, GreaterThanDays, v, env))
    ensures DateComparable(received, v, env) ==>
      var t := env.parseIso(received.value).value.micros;
      var cutoff := Time.DaysBefore(env.now, DaysOf(v, env).value).value;
      && (t == cutoff ==> !EvalDate(received, LessThanDays, v, env) && !EvalDate(received, GreaterThanDays, v, env))
      && (t != cutoff ==> EvalDate(received, LessThanDays, v, env) != EvalDate(received, GreaterThanDays, v, env))
  {
  }

  /** Widening the window keeps a match: an email received within the last
      `d1` days is also received within the last `d2 >= d1` days, as long as
      the wider cutoff is still a datetime. */
  lemma LessThanDaysWidens(received: Option<string>, v1: Json.Value, v2: Json.Value, env: Env)
    requires DaysOf(v1, env).Some? && DaysOf(v2, env).Some?
    requires DaysOf(v1, env).value <= DaysOf(v2, env).value
    requires Time.DaysBefore(env.now, DaysOf(v2, env).value).Some?
    ensures EvalDate(received, LessThanDays, v1, env) ==> EvalDate(received, LessThanDays, v2, env)
  {
  }

  /** Date predicates on a field other than `received_at`, text predicates
      on `received_at`, and `contains`/`not_contains` on `is_read` pass
      validation: the tables are checked, their combination is not. They
      then evaluate to false. */
  lemma MismatchedPredicateValidatesButFails(e: Database.Email, f: Field, p: Predicate, v: string, env: Env)
    requires v != ""
    requires || (f != ReceivedAt && (p == LessThanDays || p == GreaterThanDays))
             || (f == ReceivedAt && p != LessThanDays && p != GreaterThanDays)
             || (f == IsRead && (p == Contains || p == NotContains))
    ensures ValidateCondition(ConditionOf(f, p, Json.Str(v))) == Ok(Condition(f, p, Json.Str(v)))
    ensures EvaluateCondition(e, ConditionOf(f, p, Json.Str(v)), env) == Ok(false)
  {
    ConditionOfValidates(f, p, Json.Str(v));
  }

  // ---------------------------------------------------------------------
  // The unit-test cases

  /** The email of the test fixture, received two days before `now`. */
  function SampleEmail(received: string): Database.Email {
    Database.Email("123abc", Some("noreply@example.com"), Some("Invoice for July"),
                   Some("Please find attached your invoice"), Some(received), "INBOX", false)
  }

  /** An email received two days ago is within 3 days and older than 1 day. */
  lemma TwoDayOldEmail(received: string, env: Env)
    requires Time.MinMicros + 3 * Time.MicrosPerDay <= env.now <= Time.MaxMicros
    requires env.parseIso(received) == Some(Time.Timestamp(env.now - 2 * Time.MicrosPerDay, true))
    requires env.parseInt("3") == Some(3) && env.parseInt("1") == Some(1)
    ensures EvaluateCondition(SampleEmail(received), ConditionOf(ReceivedAt, LessThanDays, Json.Str("3")), env) == Ok(true)
    ensures EvaluateCondition(SampleEmail(received), ConditionOf(ReceivedAt, GreaterThanDays, Json.Str("1")), env) == Ok(true)
  {
    var t := env.now - 2 * Time.MicrosPerDay;
    var c3 := env.now - 3 * Time.MicrosPerDay;
    var c1 := env.now - Time.MicrosPerDay;
    assert Time.DaysBefore(env.now, 3) == Some(c3);
    assert Time.DaysBefore(env.now, 1) == Some(c1);
    DateTestAt(received, LessThanDays, Json.Str("3"), env, t, 3, c3);
    DateTestAt(received, GreaterThanDays, Json.Str("1"), env, t, 1, c1);
    ConditionOfValidates(ReceivedAt, LessThanDays, Json.Str("3"));
    ConditionOfValidates(ReceivedAt, GreaterThanDays, Json.Str("1"));
  }

  /** The date test on an aware timestamp `t` with a day count whose cutoff
      is `c`. */
  lemma DateTestAt(received: string, p: Predicate, v: Json.Value, env: Env, t: int, days: int, c: int)
    requires env.parseIso(received) == Some(Time.Timestamp(t, true))
    requires DaysOf(v, env) == Some(days) && Time.DaysBefore(env.now, days) == Some(c)
    ensures EvalDate(Some(received), p, v, env) == ((p == LessThanDays && t > c) || (p == GreaterThanDays && t < c))
  {
  }

  /** A timestamp the parser rejects makes the date test false, not an
      error. */
  lemma UnparsableDateIsFalse(received: string, env: Env)
    requires env.parseIso(received).None?
    ensures EvaluateCondition(SampleEmail(received), ConditionOf(ReceivedAt, LessThanDays, Json.Str("1")), env) == Ok(false)
  {
    ConditionOfValidates(ReceivedAt, LessThanDays, Json.Str("1"));
  }

  /** The lower-cased forms the case-insensitivity tests rely on. */
  lemma FixtureLowered(subject: string, lowered: string, upper: string)
    requires subject == "Invoice for July" && lowered == "invoice for july" && upper == "INVOICE"
    ensures Text.Lower(subject) == lowered && Text.Lower(lowered) == lowered
    ensures Text.Occurs(Text.Lower(upper), lowered)
  {
    assert forall i :: 0 <= i < |subject| ==> Text.LowerChar(subject[i]) == lowered[i];
    assert forall i :: 0 <= i < |lowered| ==> Text.LowerChar(lowered[i]) == lowered[i];
    assert Text.Lower(upper) == lowered[..7] by {
      assert forall i :: 0 <= i < |upper| ==> Text.LowerChar(upper[i]) == lowered[i];
    }
    assert Text.MatchesAt(lowered, lowered[..7], 0);
  }

  /** "payment", in any case, does not occur in the lower-cased subject. */
  lemma FixtureLacksPayment(lowered: string, payment: string)
    requires lowered == "invoice for july" && payment == "PAYMENT"
    ensures !Text.Occurs(Text.Lower(payment), lowered)
  {
    var needle := Text.Lower(payment);
    assert needle[0] == 'p';
    assert forall i :: 0 <= i < |lowered| ==> lowered[i] != 'p';
    forall k | 0 <= k ensures !Text.MatchesAt(lowered, needle, k) {
    }
  }

  /** Text tests read both the field and the value through `lower()`: two
      texts and two values that lower-case alike give the same answer for
      every predicate. */
  lemma TextTestsIgnoreCase(t1: string, t2: string, p: Predicate, v1: string, v2: string)
    requires Text.Lower(t1) == Text.Lower(t2) && Text.Lower(v1) == Text.Lower(v2)
    ensures EvalText(t1, p, Json.Str(v1)) == EvalText(t2, p, Json.Str(v2))
  {
  }

  /** The case tests on the subject "Invoice for July": `not_equals`
      "invoice for july" is false, `contains` "INVOICE" and `equals` the
      subject itself are true, `not_contains` "PAYMENT" is true. */
  lemma CaseInsensitiveText(e: Database.Email, lowered: string, upper: string, payment: string, env: Env)
    requires e.subject == Some("Invoice for July")
    requires lowered == "invoice for july" && upper == "INVOICE" && payment == "PAYMENT"
    ensures EvaluateCondition(e, ConditionOf(Subject, NotEquals, Json.Str(lowered)), env) == Ok(false)
    ensures EvaluateCondition(e, ConditionOf(Subject, Contains, Json.Str(upper)), env) == Ok(true)
    ensures EvaluateCondition(e, ConditionOf(Subject, NotContains, Json.Str(payment)), env) == Ok(true)
    ensures EvaluateCondition(e, ConditionOf(Subject, Equals, Json.Str(e.subject.value)), env) == Ok(true)
  {
    FixtureLowered(e.subject.value, lowered, upper);
    assert EvaluateCondition(e, ConditionOf(Subject, NotEquals, Json.Str(lowered)), env) == Ok(false) by {
      ConditionOfValidates(Subject, NotEquals, Json.Str(lowered));
    }
    assert EvaluateCondition(e, ConditionOf(Subject, Contains, Json.Str(upper)), env) == Ok(true) by {
      ConditionOfValidates(Subject, Contains, Json.Str(upper));
    }
    assert EvaluateCondition(e, ConditionOf(Subject, NotContains, Json.Str(payment)), env) == Ok(true) by {
      FixtureLacksPayment(lowered, payment);
      ConditionOfValidates(Subject, NotContains, Json.Str(payment));
    }
    assert EvaluateCondition(e, ConditionOf(Subject, Equals, Json.Str(e.subject.value)), env) == Ok(true) by {
      ConditionOfValidates(Subject, Equals, Json.Str(e.subject.value));
    }
  }

  /** A missing key is raised, whatever the email, and the keys are checked
      in the order field, predicate, value. */
  lemma MissingKeysRaise(e: Database.Email, f: Field, p: Predicate, v: Json.Value, env: Env)
    ensures EvaluateCondition(e, [("predicate", Json.Str(p.Name())), ("value", v)], env) == Err(MissingKey("field"))
    ensures EvaluateCondition(e, [("field", Json.Str(f.Name())), ("value", v)], env) == Err(MissingKey("predicate"))
    ensures EvaluateCondition(e, [("field", Json.Str(f.Name())), ("predicate", Json.Str(p.Name()))], env) == Err(MissingKey("value"))
    ensures EvaluateCondition(e, [], env) == Err(MissingKey("field"))
  {
    var fk, pk, vk := ("field", Json.Str(f.Name())), ("predicate", Json.Str(p.Name())), ("value", v);
    assert [pk, vk] == [pk] + [vk] && [pk] == [] + [pk];
    Json.LookupAppend([pk], "field", "value", v);
    Json.LookupAppend([], "field", "predicate", Json.Str(p.Name()));
    assert [fk, vk] == [fk] + [vk] && [fk] == [] + [fk];
    Json.LookupAppend([fk], "field", "value", v);
    Json.LookupAppend([], "field", "field", Json.Str(f.Name()));
    Json.LookupAppend([fk], "predicate", "value", v);
    Json.LookupAppend([], "predicate", "field", Json.Str(f.Name()));
    assert [fk, pk] == [fk] + [pk];
    Json.LookupAppend([fk], "value", "predicate", Json.Str(p.Name()));
    Json.LookupAppend([], "value", "field", Json.Str(f.Name()));
  }

  /** A field name outside the table is raised, whatever the email. */
  lemma UnknownFieldRaises(e: Database.Email, other: string, p: Predicate, v: Json.Value, env: Env)
    requires other !in SupportedFields
    ensures EvaluateCondition(e, [("field", Json.Str(other)), ("predicate", Json.Str(p.Name())), ("value", v)], env)
            == Err(UnsupportedField(Json.Str(other)))
  {
    var ok, pk, vk := ("field", Json.Str(other)), ("predicate", Json.Str(p.Name())), ("value", v);
    var m := [ok, pk, vk];
    assert m == [ok, pk] + [vk] && [ok, pk] == [ok] + [pk] && [ok] == [] + [ok];
    Json.LookupAppend([ok, pk], "field", "value", v);
    Json.LookupAppend([ok], "field", "predicate", Json.Str(p.Name()));
    Json.LookupAppend([], "field", "field", Json.Str(other));
    Json.LookupAppend([ok, pk], "predicate", "value", v);
    Json.LookupAppend([ok], "predicate", "predicate", Json.Str(p.Name()));
    Json.LookupAppend([ok, pk], "value", "value", v);
  }

  /** An empty value — "", 0, false, null, [] or {} — is raised, whatever
      the email and whatever the field and predicate. */
  lemma EmptyValueRaises(e: Database.Email, f: Field, p: Predicate, v: Json.Value, env: Env)
    requires !Json.Truthy(v)
    ensures EvaluateCondition(e, ConditionOf(f, p, v), env) == Err(EmptyValue)
  {
    ConditionOfValidates(f, p, v);
  }

  // ---------------------------------------------------------------------
  // Applying the rule document

  /** One step of the action loop. */
  lemma ActOnAllStep(mb: Actions.Mailbox, matched: seq<Database.Email>, actions: Json.Value, st: Actions.Step)
    requires |matched| > 0 && st == Actions.PerformActions(mb, matched[0].id, actions)
    ensures var rest := ActOnAll(st.mailbox, matched[1..], actions);
            ActOnAll(mb, matched, actions) == (rest.0, [ActionReport(matched[0].id, st.outcome)] + rest.1)
  {
  }

  /** Acting on `a + b` acts on `a` first and then on `b` from the mailbox
      `a` left: emails are handled in match order, and a failing email does
      not stop the ones after it. */
  lemma {:induction false} ActOnAllAppend(mb: Actions.Mailbox, a: seq<Database.Email>, b: seq<Database.Email>, actions: Json.Value)
    ensures var first := ActOnAll(mb, a, actions);
            var second := ActOnAll(first.0, b, actions);
            ActOnAll(mb, a + b, actions) == (second.0, first.1 + second.1)
    decreases |a|
  {
    if |a| == 0 {
      assert a + b == b;
      var second := ActOnAll(mb, b, actions);
      assert ActOnAll(mb, a, actions) == (mb, []);
      assert [] + second.1 == second.1;
    } else {
      var ab := a + b;
      assert ab[0] == a[0];
      assert ab[1..] == a[1..] + b;
      var st := Actions.PerformActions(mb, a[0].id, actions);
      var report := ActionReport(a[0].id, st.outcome);
      ActOnAllAppend(st.mailbox, a[1..], b, actions);
      var restA := ActOnAll(st.mailbox, a[1..], actions);
      var second := ActOnAll(restA.0, b, actions);
      ActOnAllStep(mb, a, actions, st);
      ActOnAllStep(mb, ab, actions, st);
      assert [report] + (restA.1 + second.1) == ([report] + restA.1) + second.1;
    }
  }

  /** Each report records what `perform_actions` did for its email, on the
      mailbox the emails before it left. */
  lemma ActOnAllReportsEach(mb: Actions.Mailbox, matched: seq<Database.Email>, actions: Json.Value, i: nat)
    requires i < |matched|
    ensures var before := ActOnAll(mb, matched[..i], actions);
            ActOnAll(mb, matched, actions).1[i] ==
              ActionReport(matched[i].id, Actions.PerformActions(before.0, matched[i].id, actions).outcome)
  {
    assert matched == matched[..i] + ([matched[i]] + matched[i + 1..]);
    ActOnAllAppend(mb, matched[..i], [matched[i]] + matched[i + 1..], actions);
  }

  /** The loader only looks at the keys: any values under "rules" and
      "actions" are accepted, and a "rules" value that cannot be iterated
      surfaces only when the rules are applied. */
  lemma LoaderIgnoresContents(rules: Json.Value, actions: Json.Value, store: Database.Store, mb: Actions.Mailbox, env: Env)
    ensures var doc := Json.Obj([("rules", rules), ("actions", actions)]);
            LoadRules(doc) == Ok(doc.members)
    ensures var doc := Json.Obj([("rules", rules), ("actions", actions)]);
            Json.Elements(rules).None? ==> ApplyRules(doc, store, mb, env) == Run(mb, Err(RulesNotIterable))
  {
    var rk, ak := ("rules", rules), ("actions", actions);
    assert [rk, ak] == [rk] + [ak] && [rk] == [] + [rk];
    Json.LookupAppend([rk], "rules", "actions", actions);
    Json.LookupAppend([], "rules", "rules", rules);
    Json.LookupAppend([rk], "actions", "actions", actions);
  }

  /** Every condition is validated before any email is read: one bad
      condition stops the run with its error and the mailbox untouched,
      whatever the store holds (even nothing, where the search itself would
      not have raised). */
  lemma BadConditionStopsRun(doc: Json.Value, store: Database.Store, mb: Actions.Mailbox, env: Env)
    requires LoadRules(doc).Ok?
    requires ValidateRules(RulesOf(LoadRules(doc).value)).Err?
    ensures ApplyRules(doc, store, mb, env) == Run(mb, Err(ValidateRules(RulesOf(LoadRules(doc).value)).error))
  {
  }
}
