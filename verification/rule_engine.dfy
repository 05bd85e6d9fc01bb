/** The rule engine of `rule_engine.py`: shape check of the loaded rule
    document, validation of one condition, per-field-type evaluation
    (text, boolean, date), the ALL/ANY combinator over an ordered email
    list, and the apply loop with its error policy.

    Exceptions become `Result` values: a `RuleError` is what the source
    raises as RuleEngineError; every other failure inside an evaluation is
    caught by the source and becomes `false`. The wall clock and the two
    string parsers the date test uses are passed in as an `Env`. */
module RuleEngine {
  import opened Wrappers
  import opened Config
  import Text
  import Json
  import Time
  import Database
  import Actions

  datatype RuleError =
    | NotAnObject                                 // the document is not an object (load_rules)
    | MissingRules                                // no `rules` key (load_rules)
    | MissingActions                              // no `actions` key (load_rules)
    | RulesNotIterable                            // `for condition in conditions` on a scalar
    | MalformedCondition(condition: Json.Value)   // a condition that is not an object
    | MissingKey(key: string)                     // a condition lacks one of its three keys
    | UnsupportedField(field: Json.Value)         // the field is not in SUPPORTED_FIELDS
    | UnsupportedPredicate(name: Json.Value)      // the predicate is not in SUPPORTED_PREDICATES
    | EmptyValue                                  // the value is falsy

  /** A decoded JSON object: a condition, or the whole rule document. */
  type Members = seq<(string, Json.Value)>

  /** A condition that passed validation. */
  datatype Condition = Condition(field: Field, op: Predicate, value: Json.Value)

  /** What the date test takes from outside: the current UTC instant
      (`datetime.now(timezone.utc)`, in microseconds), `datetime.fromisoformat`
      and `int` applied to a string. None stands for the ValueError a parser
      raises. */
  datatype Env = Env(now: int, parseIso: string -> Option<Time.Timestamp>, parseInt: string -> Option<int>)

  // ---------------------------------------------------------------------
  // Loading

  /** `load_rules` after the JSON text is decoded: the document must be an
      object holding both `rules` and `actions`. Nothing inside them, nor
      the `predicate` key, is checked here. */
  function LoadRules(doc: Json.Value): (r: Result<Members, RuleError>)
    ensures r.Ok? <==> doc.Obj? && Json.HasKey(doc.members, "rules") && Json.HasKey(doc.members, "actions")
    ensures r.Ok? ==> r.value == doc.members
    ensures !doc.Obj? ==> r == Err(NotAnObject)
    ensures doc.Obj? && !Json.HasKey(doc.members, "rules") ==> r == Err(MissingRules)
    ensures doc.Obj? && Json.HasKey(doc.members, "rules") && !Json.HasKey(doc.members, "actions") ==> r == Err(MissingActions)
  {
    if !doc.Obj? then Err(NotAnObject)
    else if !Json.HasKey(doc.members, "rules") then Err(MissingRules)
    else if !Json.HasKey(doc.members, "actions") then Err(MissingActions)
    else Ok(doc.members)
  }

  /** `ruleset.get("predicate", "ALL")`. */
  function PredicateType(ruleset: Members): Json.Value {
    Json.Lookup(ruleset, "predicate").GetOr(Json.Str("ALL"))
  }

  /** `ruleset.get("rules", [])`. */
  function RulesOf(ruleset: Members): Json.Value {
    Json.Lookup(ruleset, "rules").GetOr(Json.Arr([]))
  }

  /** `ruleset.get("actions", [])`. */
  function ActionsOf(ruleset: Members): Json.Value {
    Json.Lookup(ruleset, "actions").GetOr(Json.Arr([]))
  }

  // ---------------------------------------------------------------------
  // Validation

  /** A JSON value is a string listed in `table`. */
  predicate NamedIn(v: Json.Value, table: seq<string>) {
    v.Str? && v.s in table
  }

  /** The field a condition's `field` value names, if it names one. */
  function FieldOf(v: Json.Value): (r: Option<Field>)
    ensures r.Some? ==> v == Json.Str(r.value.Name())
  {
    if v.Str? then FieldNamed(v.s) else None
  }

  /** The predicate a condition's `predicate` value names, if it names one. */
  function PredicateOf(v: Json.Value): (r: Option<Predicate>)
    ensures r.Some? ==> v == Json.Str(r.value.Name())
  {
    if v.Str? then PredicateNamed(v.s) else None
  }

  /** `field not in SUPPORTED_FIELDS` is exactly the case without a field. */
  lemma FieldOfExact(v: Json.Value)
    ensures FieldOf(v).Some? <==> NamedIn(v, SupportedFields)
  {
    if v.Str? {
      FieldNamedExact(v.s);
    }
  }

  /** `predicate not in SUPPORTED_PREDICATES` is exactly the case without a
      predicate. */
  lemma PredicateOfExact(v: Json.Value)
    ensures PredicateOf(v).Some? <==> NamedIn(v, SupportedPredicates)
  {
    if v.Str? {
      PredicateNamedExact(v.s);
    }
  }

  /** The three keys are present, field and predicate come from the tables,
      and the value is truthy. Field and predicate need not fit together. */
  predicate WellFormed(m: Members) {
    && Json.HasKey(m, "field") && Json.HasKey(m, "predicate") && Json.HasKey(m, "value")
    && NamedIn(Json.Lookup(m, "field").value, SupportedFields)
    && NamedIn(Json.Lookup(m, "predicate").value, SupportedPredicates)
    && Json.Truthy(Json.Lookup(m, "value").value)
  }

  /** `validate_condition`: keys checked in the order field, predicate,
      value, then the field table, the predicate table, and the value. */
  function ValidateCondition(m: Members): Result<Condition, RuleError> {
    if !Json.HasKey(m, "field") then Err(MissingKey("field"))
    else if !Json.HasKey(m, "predicate") then Err(MissingKey("predicate"))
    else if !Json.HasKey(m, "value") then Err(MissingKey("value"))
    else
      var field := Json.Lookup(m, "field").value;
      var predicateName := Json.Lookup(m, "predicate").value;
      var value := Json.Lookup(m, "value").value;
      match FieldOf(field)
      case None => Err(UnsupportedField(field))
      case Some(f) =>
        match PredicateOf(predicateName)
        case None => Err(UnsupportedPredicate(predicateName))
        case Some(p) => if !Json.Truthy(value) then Err(EmptyValue) else Ok(Condition(f, p, value))
  }

  /** `validate_condition` accepts exactly the well-formed conditions, hands
      back what the keys hold, and names the first missing key. */
  lemma ValidateConditionExact(m: Members)
    ensures ValidateCondition(m).Ok? <==> WellFormed(m)
    ensures ValidateCondition(m).Ok? ==>
      var c := ValidateCondition(m).value;
      && Json.Lookup(m, "field") == Some(Json.Str(c.field.Name()))
      && Json.Lookup(m, "predicate") == Some(Json.Str(c.op.Name()))
      && Json.Lookup(m, "value") == Some(c.value)
    ensures !Json.HasKey(m, "field") ==> ValidateCondition(m) == Err(MissingKey("field"))
    ensures Json.HasKey(m, "field") && !Json.HasKey(m, "predicate") ==> ValidateCondition(m) == Err(MissingKey("predicate"))
    ensures Json.HasKey(m, "field") && Json.HasKey(m, "predicate") && !Json.HasKey(m, "value")
            ==> ValidateCondition(m) == Err(MissingKey("value"))
  {
    if Json.HasKey(m, "field") && Json.HasKey(m, "predicate") {
      FieldOfExact(Json.Lookup(m, "field").value);
      PredicateOfExact(Json.Lookup(m, "predicate").value);
    }
  }

  // ---------------------------------------------------------------------
  // Evaluation of one condition

  /** `_evaluate_text_condition`: lower-cased substring or equality tests.
      A non-string condition value makes `value.lower()` raise, which the
      caller turns into false. */
  function EvalText(text: string, p: Predicate, v: Json.Value): (r: bool)
    ensures !v.Str? ==> !r
    ensures v.Str? ==> var hay := Text.Lower(text); var needle := Text.Lower(v.s);
      && (p == Contains ==> (r <==> Text.Occurs(needle, hay)))
      && (p == NotContains ==> (r <==> !Text.Occurs(needle, hay)))
      && (p == Equals ==> (r <==> hay == needle))
      && (p == NotEquals ==> (r <==> hay != needle))
    ensures p == LessThanDays || p == GreaterThanDays ==> !r
  {
    if !v.Str? then false
    else
      var hay := Text.Lower(text);
      var needle := Text.Lower(v.s);
      match p
      case Contains => Text.Contains(hay, needle)
      case NotContains => !Text.Contains(hay, needle)
      case Equals => hay == needle
      case NotEquals => hay != needle
      case _ => false
  }

  /** The string value of a text field; None when the record holds NULL. */
  function TextOf(e: Database.Email, f: Field): Option<string>
    requires f.IsText()
  {
    match f
    case Sender => e.sender
    case Subject => e.subject
    case Body => e.body
  }

  /** `_evaluate_boolean_condition`: the expected value is
      `value.lower() == "true"`. */
  function EvalBool(isRead: bool, p: Predicate, v: Json.Value): bool {
    if !v.Str? then false
    else
      var expected := Text.Lower(v.s) == "true";
      match p
      case Equals => isRead == expected
      case NotEquals => isRead != expected
      case _ => false
  }

  /** `int(value)`: a string goes through the injected parser, a JSON integer
      is itself, a boolean is 0 or 1; anything else raises TypeError. */
  function DaysOf(v: Json.Value, env: Env): Option<int> {
    match v
    case Str(s) => env.parseInt(s)
    case Int(i) => Some(i)
    case Bool(b) => Some(if b then 1 else 0)
    case _ => None
  }

  /** The facts a date test needs: a stored timestamp that parses and
      carries an offset, a day count that parses, and a cutoff
      `now - days` inside the datetime range. */
  predicate DateComparable(received: Option<string>, v: Json.Value, env: Env) {
    && received.Some? && env.parseIso(received.value).Some? && env.parseIso(received.value).value.aware
    && DaysOf(v, env).Some?
    && Time.DaysBefore(env.now, DaysOf(v, env).value).Some?
  }

  /** `_evaluate_date_condition` for a `received_at` value. Every failure —
      a missing or unparsable timestamp, a non-integer day count, an
      overflowing cutoff, a naive timestamp compared with the aware clock —
      yields false. */
  function EvalDate(received: Option<string>, p: Predicate, v: Json.Value, env: Env): (r: bool)
    ensures r <==> && DateComparable(received, v, env)
                   && var t := env.parseIso(received.value).value.micros;
                      var cutoff := Time.DaysBefore(env.now, DaysOf(v, env).value).value;
                      || (p == LessThanDays && t > cutoff)
                      || (p == GreaterThanDays && t < cutoff)
  {
    if received.None? then false
    else
      match env.parseIso(received.value)
      case None => false
      case Some(t) =>
        match DaysOf(v, env)
        case None => false
        case Some(days) =>
          if !(p == LessThanDays || p == GreaterThanDays) then false
          else
            match Time.DaysBefore(env.now, days)
            case None => false
            case Some(cutoff) =>
              if !t.aware then false
              else if p == LessThanDays then t.micros > cutoff
              else t.micros < cutoff
  }

  /** The body of `evaluate_condition` after validation: dispatch on the
      field. A text field holding NULL is false for every predicate. */
  function EvalValid(e: Database.Email, c: Condition, env: Env): bool {
    match c.field
    case ReceivedAt => EvalDate(e.receivedAt, c.op, c.value, env)
    case IsRead => EvalBool(e.isRead, c.op, c.value)
    case _ =>
      var text := TextOf(e, c.field);
      if text.None? then false else EvalText(text.value, c.op, c.value)
  }

  /** `evaluate_condition`: validation errors are raised again, never turned
      into false. */
  function EvaluateCondition(e: Database.Email, m: Members, env: Env): (r: Result<bool, RuleError>)
    ensures r.Err? <==> ValidateCondition(m).Err?
    ensures r.Err? ==> r.error == ValidateCondition(m).error
    ensures r.Ok? ==> r.value == EvalValid(e, ValidateCondition(m).value, env)
  {
    match ValidateCondition(m)
    case Err(err) => Err(err)
    case Ok(c) => Ok(EvalValid(e, c, env))
  }

  // ---------------------------------------------------------------------
  // Combining conditions over a list of emails

  predicate AllValid(conds: seq<Members>) {
    forall i :: 0 <= i < |conds| ==> ValidateCondition(conds[i]).Ok?
  }

  /** The list comprehension `[evaluate_condition(email, c) for c in conds]`:
      every condition in order; the first invalid one raises. */
  function EvalAll(e: Database.Email, conds: seq<Members>, env: Env): (r: Result<seq<bool>, RuleError>)
    ensures r.Ok? <==> AllValid(conds)
    ensures r.Ok? ==> |r.value| == |conds|
    decreases |conds|
  {
    if |conds| == 0 then Ok([])
    else
      var first := ValidateCondition(conds[0]);
      if first.Err? then Err(first.error)
      else
        var rest := EvalAll(e, conds[1..], env);
        if rest.Err? then Err(rest.error)
        else Ok([EvalValid(e, first.value, env)] + rest.value)
  }

  /** When every condition validates, the k-th result is the k-th
      condition's test on the email. */
  lemma {:induction false} EvalAllAt(e: Database.Email, conds: seq<Members>, env: Env, k: nat)
    requires AllValid(conds) && k < |conds|
    ensures EvalAll(e, conds, env).Ok?
    ensures EvalAll(e, conds, env).value[k] == EvalValid(e, ValidateCondition(conds[k]).value, env)
    decreases k
  {
    if k > 0 {
      var tail := conds[1..];
      AllValidTail(conds);
      EvalAllAt(e, tail, env, k - 1);
      var rest := EvalAll(e, tail, env).value;
      assert EvalAll(e, conds, env).value == [EvalValid(e, ValidateCondition(conds[0]).value, env)] + rest;
      assert tail[k - 1] == conds[k];
    }
  }

  lemma AllValidTail(conds: seq<Members>)
    requires |conds| > 0 && AllValid(conds)
    ensures AllValid(conds[1..])
  {
    var tail := conds[1..];
    forall i | 0 <= i < |tail| ensures ValidateCondition(tail[i]).Ok? {
      assert tail[i] == conds[i + 1];
    }
  }

  /** The whole result list, position by position. */
  lemma EvalAllValues(e: Database.Email, conds: seq<Members>, env: Env)
    requires AllValid(conds)
    ensures EvalAll(e, conds, env).Ok?
    ensures forall i :: 0 <= i < |conds| ==>
              EvalAll(e, conds, env).value[i] == EvalValid(e, ValidateCondition(conds[i]).value, env)
  {
    forall i | 0 <= i < |conds|
      ensures EvalAll(e, conds, env).value[i] == EvalValid(e, ValidateCondition(conds[i]).value, env)
    {
      EvalAllAt(e, conds, env, i);
    }
  }

  /** What the comprehension raises is the error of the first condition
      that does not validate. */
  lemma {:induction false} EvalAllRaisesFirstInvalid(e: Database.Email, conds: seq<Members>, env: Env)
    ensures EvalAll(e, conds, env).Err? ==>
      exists i :: && 0 <= i < |conds| && ValidateCondition(conds[i]) == Err(EvalAll(e, conds, env).error)
                  && forall j :: 0 <= j < i ==> ValidateCondition(conds[j]).Ok?
    decreases |conds|
  {
    if |conds| > 0 && ValidateCondition(conds[0]).Ok? {
      var tail := conds[1..];
      EvalAllRaisesFirstInvalid(e, tail, env);
      if EvalAll(e, tail, env).Err? {
        var err := EvalAll(e, tail, env).error;
        var i :| 0 <= i < |tail| && ValidateCondition(tail[i]) == Err(err)
                 && forall j :: 0 <= j < i ==> ValidateCondition(tail[j]).Ok?;
        assert conds[i + 1] == tail[i];
        forall j | 0 <= j < i + 1 ensures ValidateCondition(conds[j]).Ok? {
          if j > 0 {
            assert conds[j] == tail[j - 1];
          }
        }
      }
    }
  }

  /** The ALL/ANY test of `_find_matching_emails` on one email's results;
      any other predicate type matches nothing. */
  predicate Combine(ptype: Json.Value, results: seq<bool>) {
    || (ptype == Json.Str("ALL") && false !in results)
    || (ptype == Json.Str("ANY") && true in results)
  }

  /** The specification of a match: every condition holds (ALL) or some
      condition holds (ANY). */
  ghost predicate RuleHolds(e: Database.Email, conds: seq<Members>, ptype: Json.Value, env: Env)
    requires AllValid(conds)
  {
    || (ptype == Json.Str("ALL") && forall i :: 0 <= i < |conds| ==> EvalValid(e, ValidateCondition(conds[i]).value, env))
    || (ptype == Json.Str("ANY") && exists i :: 0 <= i < |conds| && EvalValid(e, ValidateCondition(conds[i]).value, env))
  }

  /** `_find_matching_emails`: the emails, in order, whose condition results
      combine to true. A validation error in any condition aborts the whole
      search, as soon as there is an email to evaluate. */
  function FindMatching(emails: seq<Database.Email>, conds: seq<Members>, ptype: Json.Value, env: Env)
    : (r: Result<seq<Database.Email>, RuleError>)
    ensures r.Err? <==> |emails| > 0 && !AllValid(conds)
    decreases |emails|
  {
    if |emails| == 0 then Ok([])
    else
      match EvalAll(emails[0], conds, env)
      case Err(err) => Err(err)
      case Ok(results) =>
        match FindMatching(emails[1..], conds, ptype, env)
        case Err(err) => Err(err)
        case Ok(rest) => Ok((if Combine(ptype, results) then [emails[0]] else []) + rest)
  }

  // ---------------------------------------------------------------------
  // Applying the rule document

  /** An element of the `rules` list that `validate_condition` accepts. */
  predicate GoodItem(v: Json.Value) {
    v.Obj? && ValidateCondition(v.members).Ok?
  }

  /** What the validation pass raises on an element that is not good: the
      validation error of an object, and a malformed-condition error for
      anything else. */
  function ItemError(v: Json.Value): RuleError
    requires !GoodItem(v)
  {
    if v.Obj? then ValidateCondition(v.members).error else MalformedCondition(v)
  }

  /** Position `i` holds the first element that is not good. */
  predicate FirstBad(items: seq<Json.Value>, i: nat)
    requires i < |items|
  {
    !GoodItem(items[i]) && forall j :: 0 <= j < i ==> GoodItem(items[j])
  }

  /** The validation pass of `apply_rules` over `ruleset.get("rules")`: each
      element in order must be an object that validates; the first one that
      does not is raised. */
  function ValidateEach(items: seq<Json.Value>): (r: Result<seq<Members>, RuleError>)
    ensures r.Ok? ==> |r.value| == |items|
    decreases |items|
  {
    if |items| == 0 then Ok([])
    else if !GoodItem(items[0]) then Err(ItemError(items[0]))
    else
      var rest := ValidateEach(items[1..]);
      if rest.Err? then Err(rest.error) else Ok([items[0].members] + rest.value)
  }

  /** A pass that succeeds saw a good element at every position and hands
      back its members. */
  lemma {:induction false} ValidateEachAt(items: seq<Json.Value>, k: nat)
    requires ValidateEach(items).Ok? && k < |items|
    ensures GoodItem(items[k]) && ValidateEach(items).value[k] == items[k].members
    decreases k
  {
    ValidateEachCons(items);
    if k > 0 {
      var tail := items[1..];
      ValidateEachAt(tail, k - 1);
      assert tail[k - 1] == items[k];
    }
  }

  /** One step of a successful pass. */
  lemma ValidateEachCons(items: seq<Json.Value>)
    requires ValidateEach(items).Ok? && |items| > 0
    ensures GoodItem(items[0]) && ValidateEach(items[1..]).Ok?
    ensures ValidateEach(items).value == [items[0].members] + ValidateEach(items[1..]).value
  {
  }

  /** A list of good elements passes. */
  lemma {:induction false} ValidateEachAllGood(items: seq<Json.Value>)
    requires forall i :: 0 <= i < |items| ==> GoodItem(items[i])
    ensures ValidateEach(items).Ok?
    decreases |items|
  {
    if |items| > 0 {
      var tail := items[1..];
      forall i | 0 <= i < |tail| ensures GoodItem(tail[i]) {
        assert tail[i] == items[i + 1];
      }
      ValidateEachAllGood(tail);
    }
  }

  /** A failing pass raises the error of the first element that is not
      good. */
  lemma {:induction false} ValidateEachFirstBad(items: seq<Json.Value>)
    requires ValidateEach(items).Err?
    ensures exists i :: 0 <= i < |items| && FirstBad(items, i) && ValidateEach(items).error == ItemError(items[i])
    decreases |items|
  {
    if GoodItem(items[0]) {
      var tail := items[1..];
      ValidateEachFirstBad(tail);
      var k :| 0 <= k < |tail| && FirstBad(tail, k) && ValidateEach(tail).error == ItemError(tail[k]);
      assert tail[k] == items[k + 1];
      forall j | 0 <= j < k + 1 ensures GoodItem(items[j]) {
        if j > 0 {
          assert items[j] == tail[j - 1];
        }
      }
      assert FirstBad(items, k + 1);
    } else {
      assert FirstBad(items, 0);
    }
  }

  /** The validation pass succeeds exactly when every element is good; it
      then hands back every condition, all valid, and otherwise raises the
      first bad element's error. */
  lemma ValidateEachExact(items: seq<Json.Value>)
    ensures ValidateEach(items).Ok? <==> forall i :: 0 <= i < |items| ==> GoodItem(items[i])
    ensures ValidateEach(items).Ok? ==>
      && (forall i :: 0 <= i < |items| ==> ValidateEach(items).value[i] == items[i].members)
      && AllValid(ValidateEach(items).value)
    ensures ValidateEach(items).Err? ==>
      exists i :: 0 <= i < |items| && FirstBad(items, i) && ValidateEach(items).error == ItemError(items[i])
  {
    if ValidateEach(items).Ok? {
      var r := ValidateEach(items).value;
      forall i | 0 <= i < |items| ensures GoodItem(items[i]) && r[i] == items[i].members {
        ValidateEachAt(items, i);
      }
      forall i | 0 <= i < |r| ensures ValidateCondition(r[i]).Ok? {
        assert GoodItem(items[i]);
      }
    } else {
      ValidateEachFirstBad(items);
      if forall i :: 0 <= i < |items| ==> GoodItem(items[i]) {
        ValidateEachAllGood(items);
      }
    }
  }

  /** The whole validation pass: the `rules` value must be iterable, and
      then every element must validate. */
  function ValidateRules(rules: Json.Value): (r: Result<seq<Members>, RuleError>)
    ensures Json.Elements(rules).None? ==> r == Err(RulesNotIterable)
    ensures r.Ok? <==> && Json.Elements(rules).Some?
                       && var items := Json.Elements(rules).value;
                          forall i :: 0 <= i < |items| ==> GoodItem(items[i])
    ensures r.Ok? ==> AllValid(r.value)
  {
    match Json.Elements(rules)
    case None => Err(RulesNotIterable)
    case Some(items) => ValidateEachExact(items); ValidateEach(items)
  }

  /** The record of one `perform_actions` call: which email, and whether it
      raised (logged by the source, which carries on). */
  datatype ActionReport = ActionReport(emailId: string, outcome: Outcome<Actions.ActionError>)

  /** The ids of a list of emails, in order. */
  function IdsOf(emails: seq<Database.Email>): (ids: seq<string>)
    ensures |ids| == |emails|
  {
    seq(|emails|, i requires 0 <= i < |emails| => emails[i].id)
  }

  /** The email ids a list of reports is about, in order. */
  function ReportedIds(reports: seq<ActionReport>): (ids: seq<string>)
    ensures |ids| == |reports|
  {
    seq(|reports|, i requires 0 <= i < |reports| => reports[i].emailId)
  }

  /** The action loop of `apply_rules`: `perform_actions` once per matched
      email, in match order, each on the mailbox the previous one left; a
      failure is recorded and the loop continues. */
  function ActOnAll(mb: Actions.Mailbox, matched: seq<Database.Email>, actions: Json.Value)
    : (r: (Actions.Mailbox, seq<ActionReport>))
    ensures ReportedIds(r.1) == IdsOf(matched)
    decreases |matched|
  {
    if |matched| == 0 then (mb, [])
    else
      var st := Actions.PerformActions(mb, matched[0].id, actions);
      var rest := ActOnAll(st.mailbox, matched[1..], actions);
      var reports := [ActionReport(matched[0].id, st.outcome)] + rest.1;
      assert ReportedIds(reports) == IdsOf(matched) by {
        var tail := matched[1..];
        assert ReportedIds(rest.1) == IdsOf(tail);
        forall i | 0 <= i < |matched| ensures ReportedIds(reports)[i] == IdsOf(matched)[i] {
          if i > 0 {
            assert reports[i] == rest.1[i - 1] && matched[i] == tail[i - 1];
            assert ReportedIds(rest.1)[i - 1] == IdsOf(tail)[i - 1];
          }
        }
      }
      (rest.0, reports)
  }

  /** The outcome of `apply_rules`: the mailbox after it, and either the
      per-email action reports or the error it raised. */
  datatype Run = Run(mailbox: Actions.Mailbox, result: Result<seq<ActionReport>, RuleError>)

  /** `apply_rules` on a decoded rule document, the store's emails and the
      mailbox: load, validate every condition, read all emails, find the
      matches, act on each. An error at load or validation ends the run
      before any email is read or any action is taken. */
  function ApplyRules(doc: Json.Value, store: Database.Store, mb: Actions.Mailbox, env: Env): (run: Run)
    ensures run.result.Err? ==> run.mailbox == mb
    ensures LoadRules(doc).Err? ==> run.result == Err(LoadRules(doc).error)
    ensures LoadRules(doc).Ok? ==>
      (run.result.Err? <==> ValidateRules(RulesOf(LoadRules(doc).value)).Err?)
    ensures run.result.Ok? ==>
      var ruleset := LoadRules(doc).value;
      var conds := ValidateRules(RulesOf(ruleset)).value;
      var matched := FindMatching(Database.GetAllEmails(store), conds, PredicateType(ruleset), env);
      && matched.Ok?
      && ReportedIds(run.result.value) == IdsOf(matched.value)
      && (run.mailbox, run.result.value) == ActOnAll(mb, matched.value, ActionsOf(ruleset))
  {
    match LoadRules(doc)
    case Err(err) => Run(mb, Err(err))
    case Ok(ruleset) =>
      match ValidateRules(RulesOf(ruleset))
      case Err(err) => Run(mb, Err(err))
      case Ok(conds) =>
        var emails := Database.GetAllEmails(store);
        match FindMatching(emails, conds, PredicateType(ruleset), env)
        case Err(err) => Run(mb, Err(err))
        case Ok(matched) =>
          var (mb', reports) := ActOnAll(mb, matched, ActionsOf(ruleset));
          Run(mb', Ok(reports))
  }
}
