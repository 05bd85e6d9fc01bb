# Gmail rule processor — a Dafny model

This project models the core of the Gmail rule processor. The fetcher turns
Gmail API message resources into email records, and SQLite stores them (an
`emails` table plus an `email_labels` mapping). The rule engine reads a JSON
rule document (`predicate`, `rules`, `actions`). It then:

- validates every condition;
- evaluates the conditions on every stored email, with ALL/ANY combination;
- performs the listed actions on each matching message: `mark_read`,
  `mark_unread`, or `move:<label>`, which finds or creates the label.

Modules follow the program's files:

| module | models |
|---|---|
| `Config` | the fixed tables of `config.py` (fields, predicates, actions, the UNREAD label) |
| `Json` | the decoded rule document: Python truthiness, `dict.get`, iteration with `for` |
| `Text` | the string operations the source relies on: `lower`, `in`, `split`, `strip`, `startswith` |
| `Time` | `datetime` instants in microseconds with an "aware" flag; `now - timedelta(days=n)` with its overflow |
| `Database` | `save_email` and `get_all_emails` over an ordered row sequence and a label-mapping set |
| `Actions` | `actions.py` over a mailbox: a map from message id to label ids, plus the label catalogue |
| `RuleEngine` | `rule_engine.py`: loading, validation, evaluation, matching, `apply_rules` |
| `RuleEngineProps` | properties of the rule engine: selection, the predicate semantics, the unit-test cases, the action loop |
| `Fetcher` | `gmail_fetcher.py`: parsing a message resource, body extraction, the date fallback, the fetch-and-store loop |
| `Pipeline` | what a fetched message looks like to the rule engine after a save and a read-back |

Python exceptions become `Result`/`Outcome` values. Code the model cannot see
becomes a function-typed parameter:

- `RuleEngine.Env` carries the clock (`now`), `datetime.fromisoformat` and
  `int()` on a string;
- `Fetcher.Codecs` carries `parsedate_to_datetime`, `isoformat` and
  base64url-to-UTF-8 decoding.

The Gmail service is modelled in two parts. The mailbox state stands for
label changes. An `Option` stands for a message list or message resource that
fails to arrive.

Behaviours of the code worth knowing, which the model keeps:

- A condition on `received_at` is never true for a timestamp without a UTC
  offset. The source compares it with an aware `datetime.now(timezone.utc)`,
  Python raises `TypeError`, and the `except (ValueError, TypeError)` of
  `_evaluate_date_condition` itself returns `False`. The
  fetcher's fallback date (`datetime.utcnow().isoformat()`) is exactly such a
  timestamp; see `Pipeline.FallbackDateNeverMatches`.
- A `predicate` value other than `"ALL"` or `"ANY"` is not an error. It
  matches no email (`RuleEngineProps.OtherPredicateTypeSelectsNothing`).
- A failing `perform_actions` call is logged and the run carries on with
  the next matched email, but within that one call the action list stops at
  the first failing action (`Actions.FailureStopsRun`).
- A message-list entry without an `id` is not skipped. The `except` handler
  of the loop reads `msg['id']` again and raises, which ends the whole fetch
  (`Fetcher.AbortKeepsEarlierSaves`).

## Model

Some operations are plain definitions; the lemmas in the table state what
they mean:

- `Json.Elements` (iteration with `for`): `Json.KeysMeaning`,
  `Json.DuplicateKeyVisitedOnce`, `Json.IterableTruthyIffNonEmpty`.
- `Database.GetAllEmails`: `Database.SaveThenRead`.
- `RuleEngine.ValidateCondition`: `RuleEngine.ValidateConditionExact`.
- `RuleEngine.EvaluateCondition`: `RuleEngineProps.MissingKeysRaise`,
  `RuleEngineProps.UnknownFieldRaises`, `RuleEngineProps.EmptyValueRaises`
  and the predicate lemmas of `RuleEngineProps`.
- `RuleEngine.EvalBool`: `RuleEngineProps.BooleanPredicates`,
  `RuleEngineProps.BooleanOddCasesFalse`.
- `Actions.ValidateAction`: `Actions.ValidateActionExact`.
- `Actions.PerformSingle`: `Actions.DispatchAgreesWithValidation`, the
  `Mark*Effect` and `MoveEffect` lemmas, `Actions.SingleTouchesOnlyTarget`.
- `Actions.RunActions`: `Actions.RunActionsAppend`, `Actions.FailureStopsRun`,
  `Actions.RunTouchesOnlyTarget`.
- `Fetcher.DecodeBody` and `Fetcher.ExtractBody`: `Fetcher.ExtractBodyFirstPart`,
  `Fetcher.ExtractBodyNoPart`, `Fetcher.BodyExamples`,
  `Fetcher.PartWithoutBodyGivesEmpty`.
- `Fetcher.ParseDateHeader`: `Pipeline.ParsedDateIsCompared`,
  `Pipeline.FallbackDateNeverMatches`.
- `Fetcher.ParseEmailData`: `Fetcher.HeaderExamples`,
  `Pipeline.FetchedLabelsStored`, `Pipeline.FetchedReadFlagSeen`.

| member | source | states |
|---|---|---|
| Config.FieldNamedExact | gmail_rule_processor/config.py:32 | a name denotes a field exactly when it is in SUPPORTED_FIELDS |
| Config.PredicateNamedExact | gmail_rule_processor/config.py:35-38 | a name denotes a predicate exactly when it is in SUPPORTED_PREDICATES |
| Config.FieldTableIsExact | gmail_rule_processor/config.py:32 | the field table has five distinct names, one per field, and every name in it denotes a field |
| Config.PredicateTableIsExact | gmail_rule_processor/config.py:35-38 | the predicate table has six distinct names, one per predicate, and every name in it denotes a predicate |
| Config.ActionTablesDisjoint | gmail_rule_processor/config.py:41-42 | no basic action starts with `move:`, so an action string is at most one kind of action |
| Json.LookupMeaning | gmail_rule_processor/rule_engine.py:239-241 | `dict.get` on a decoded object: None exactly when no member has the key, otherwise the value of the last member with that key |
| Json.KeysMeaning | gmail_rule_processor/rule_engine.py:244 | `for` over a decoded object visits each key exactly once, only keys it has, in order of first occurrence |
| Json.DuplicateKeyVisitedOnce | gmail_rule_processor/rule_engine.py:239-244 | a key repeated in the document is visited once, at its first place, and `dict.get` gives its last value |
| Json.IterableTruthyIffNonEmpty | gmail_rule_processor/actions.py:32-38 | an iterable value is truthy exactly when iterating over it yields something |
| Text.Contains | gmail_rule_processor/rule_engine.py:216-219 | `needle in hay` holds exactly when some window of `hay` equals `needle` |
| Text.AfterFirst | gmail_rule_processor/actions.py:106 | `s.split(':', 1)[1]` is the text after the first colon, and is missing exactly when `s` has no colon |
| Text.SplitJoin | gmail_rule_processor/gmail_fetcher.py:134 | joining separator-free pieces with a comma and splitting again gives the pieces back |
| Text.JoinSplit | gmail_rule_processor/database.py:119 | splitting a string on a comma and joining the pieces gives the string back |
| Text.Strip | gmail_rule_processor/database.py:119 | `strip()` leaves no blank at either end, adds no character, is empty exactly for all-blank input, and fixes stripped strings |
| Text.StripIsMiddleSlice | gmail_rule_processor/database.py:119 | `strip()` keeps a contiguous middle slice of the string and drops only blanks before and after it |
| Time.DaysBefore | gmail_rule_processor/rule_engine.py:162-165 | the cutoff `now - timedelta(days=n)` plus n days is `now`; it is missing exactly when the timedelta or the datetime would overflow |
| Database.WithoutIdCount | gmail_rule_processor/database.py:104 | removing the row of an id from a store with unique ids removes exactly one row when the id is present and none otherwise |
| Database.LabelPieces | gmail_rule_processor/database.py:117-119 | the labels taken from a `label_ids` string are exactly its stripped, non-empty comma-separated pieces |
| Database.SaveEmail | gmail_rule_processor/database.py:103-124 | `INSERT OR REPLACE` keeps ids unique and puts the saved record last; `INSERT OR IGNORE` adds exactly the record's label pieces to the mappings |
| Database.SaveThenRead | gmail_rule_processor/database.py:104-113 | after a save, the last email read back is the saved record, with `is_read` as saved |
| Database.StaleLabelsSurvive | gmail_rule_processor/database.py:117-124 | a save never removes an existing label mapping, even one whose label has left the email |
| Database.NoLabelsNoMappings | gmail_rule_processor/database.py:117-118 | a record with an empty `label_ids` adds no label mapping |
| Database.DuplicateLabelsCollapse | gmail_rule_processor/database.py:119-124 | a label listed twice, bare or once with blanks around it, gives the same mappings as the label listed once |
| Database.JoinedLabelsSplitBack | gmail_rule_processor/database.py:117-119 | label ids joined with commas, each non-empty, comma-free and stripped, are split back to exactly the same list |
| Database.SaveEmailIdempotent | gmail_rule_processor/database.py:103-124 | saving the same record twice leaves the store as one save does |
| Actions.Classify | gmail_rule_processor/actions.py:59-64 | an action string is basic exactly when it is in SUPPORTED_ACTIONS, a move with the text after the first colon when it starts with `move:`, and unknown otherwise |
| Actions.ValidateActionExact | gmail_rule_processor/actions.py:181-188 | `validate_action` accepts exactly the basic actions and the moves with a non-empty label name |
| Actions.MoveLabelKeepsLaterColons | gmail_rule_processor/actions.py:106 | `move:a:b` names the label `a:b`: only the first colon separates |
| Actions.GetSupportedActions | gmail_rule_processor/actions.py:198 | the list is the basic actions followed by the `move:label_name` template, and every entry validates |
| Actions.FindLabel | gmail_rule_processor/actions.py:145-148 | the label found is the first whose name equals the wanted one ignoring case; none is found exactly when no name matches |
| Actions.GetOrCreateLabel | gmail_rule_processor/actions.py:141-164 | an existing label of that name (ignoring case) is reused with the catalogue unchanged; otherwise one label of that name is appended, with an id no existing label has, and that id is returned |
| Actions.NewLabelId | gmail_rule_processor/actions.py:158-164 | the id a created label receives differs from the id of every label already in the catalogue |
| Actions.PerformActions | gmail_rule_processor/actions.py:32-34 | an empty action list does nothing and succeeds |
| Actions.DispatchAgreesWithValidation | gmail_rule_processor/actions.py:59-64 | an action that `validate_action` rejects fails when performed, and one it accepts fails only when the message is missing |
| Actions.MarkReadEffect | gmail_rule_processor/actions.py:76-81 | `mark_read` on an existing message succeeds, removes UNREAD, keeps every other label and message, and leaves the catalogue alone |
| Actions.MarkUnreadEffect | gmail_rule_processor/actions.py:84-89 | `mark_unread` on an existing message succeeds, adds UNREAD, keeps every other label and message, and leaves the catalogue alone |
| Actions.MoveEffect | gmail_rule_processor/actions.py:105-117 | a move with a non-empty label name on an existing message succeeds, adds the found or created label to it and removes none; the catalogue is unchanged or grows by that one label |
| Actions.RunActionsAppend | gmail_rule_processor/actions.py:38-44 | running two action lists one after the other is running their concatenation, unless the first fails |
| Actions.FailureStopsRun | gmail_rule_processor/actions.py:42-44 | the first failing action ends the list: later actions are not performed and the failure is reported |
| Actions.SingleTouchesOnlyTarget | gmail_rule_processor/actions.py:47-64 | one action changes the labels of the target message only, and only adds to the label catalogue |
| Actions.RunTouchesOnlyTarget | gmail_rule_processor/actions.py:38-44 | a whole action list leaves every other message's labels unchanged |
| RuleEngine.LoadRules | gmail_rule_processor/rule_engine.py:42-52 | a document loads exactly when it is an object with both `rules` and `actions` keys; otherwise the first failing check names the error |
| RuleEngine.FieldOfExact | gmail_rule_processor/rule_engine.py:94-95 | the field of a condition is found exactly when its `field` value is a string in SUPPORTED_FIELDS |
| RuleEngine.PredicateOfExact | gmail_rule_processor/rule_engine.py:97-98 | the predicate of a condition is found exactly when its `predicate` value is a string in SUPPORTED_PREDICATES |
| RuleEngine.ValidateConditionExact | gmail_rule_processor/rule_engine.py:85-101 | a condition validates exactly when it has all three keys, a supported field and predicate, and a truthy value; the missing keys are reported in the order field, predicate, value |
| RuleEngine.EvalText | gmail_rule_processor/rule_engine.py:213-225 | text predicates compare lower-cased strings: containment, equality and their negations; a non-string value and the date predicates give false |
| RuleEngine.EvalDate | gmail_rule_processor/rule_engine.py:157-171 | a date condition holds exactly when both parse, the email time is aware and the cutoff exists, and the email is after the cutoff (`less_than_days`) or before it (`greater_than_days`) |
| RuleEngine.EvalAll | gmail_rule_processor/rule_engine.py:289 | all conditions evaluate exactly when all validate, with one result per condition |
| RuleEngine.EvalAllValues | gmail_rule_processor/rule_engine.py:289 | when all conditions validate, the i-th result is the i-th condition's test on the email |
| RuleEngine.EvalAllAt | gmail_rule_processor/rule_engine.py:289 | when all conditions validate, the result at one position is that condition's test on the email |
| RuleEngine.EvalAllRaisesFirstInvalid | gmail_rule_processor/rule_engine.py:289 | the error raised is that of the first condition that fails validation |
| RuleEngine.FindMatching | gmail_rule_processor/rule_engine.py:286-296 | matching raises exactly when there is an email to test and some condition is invalid |
| RuleEngine.ValidateEachExact | gmail_rule_processor/rule_engine.py:244-245 | the validation loop succeeds exactly when every element is an object that validates, then hands back their members in order; otherwise it raises the error of the first element that does not |
| RuleEngine.ValidateRules | gmail_rule_processor/rule_engine.py:244-245 | a `rules` value that is not iterable raises; otherwise it validates exactly when every element is a valid condition, and then every condition handed on validates |
| RuleEngine.ActOnAll | gmail_rule_processor/rule_engine.py:257-262 | `perform_actions` is called once per matched email, in match order, and every call is reported whether or not it failed |
| RuleEngine.ApplyRules | gmail_rule_processor/rule_engine.py:236-266 | a load or validation error is raised before any action, with the mailbox unchanged; otherwise the emails matching the rule, in store order, are handed to the per-email action loop, whose final mailbox and reports are the run's |
| RuleEngineProps.ConditionOfValidates | gmail_rule_processor/rule_engine.py:85-101 | a condition with a supported field and predicate validates exactly when its value is truthy |
| RuleEngineProps.CombineIffRuleHolds | gmail_rule_processor/rule_engine.py:291-294 | the ALL/ANY combination of the results holds exactly when every (ALL) or some (ANY) condition holds on the email |
| RuleEngineProps.FindMatchingKeeps | gmail_rule_processor/rule_engine.py:288-294 | an email is matched exactly when the rule holds on it |
| RuleEngineProps.FindMatchingSelects | gmail_rule_processor/rule_engine.py:286-296 | the matches are the emails on which the rule holds, in input order, each once |
| RuleEngineProps.NoConditions | gmail_rule_processor/rule_engine.py:289-294 | with no conditions, ALL matches every email and ANY matches none |
| RuleEngineProps.OtherPredicateTypeSelectsNothing | gmail_rule_processor/rule_engine.py:291-294 | a predicate type other than ALL or ANY matches no email |
| RuleEngineProps.DefaultPredicateIsAll | gmail_rule_processor/rule_engine.py:239 | a rule document without `predicate` combines with ALL |
| RuleEngineProps.TextPredicatesComplement | gmail_rule_processor/rule_engine.py:216-223 | `not_contains` is the negation of `contains`, and `not_equals` of `equals` |
| RuleEngineProps.MissingTextIsFalse | gmail_rule_processor/rule_engine.py:133-134 | a text field without a value makes every text condition false |
| RuleEngineProps.BooleanPredicates | gmail_rule_processor/rule_engine.py:186-192 | `is_read equals v` holds exactly when the flag equals (lower-case v == "true"), and `not_equals` exactly when it differs |
| RuleEngineProps.BooleanOddCasesFalse | gmail_rule_processor/rule_engine.py:193-198 | other predicates, and non-string values, on `is_read` are false |
| RuleEngineProps.DatePredicatesSplitAtCutoff | gmail_rule_processor/rule_engine.py:162-167 | for an aware email time and a valid cutoff, exactly one of `less_than_days` and `greater_than_days` holds unless the time is the cutoff itself |
| RuleEngineProps.LessThanDaysWidens | gmail_rule_processor/rule_engine.py:162-163 | an email within n days is within every larger number of days |
| RuleEngineProps.MismatchedPredicateValidatesButFails | gmail_rule_processor/rule_engine.py:124-198 | a predicate that does not fit the field (a date predicate on another field, a text predicate on `received_at`, `contains`/`not_contains` on `is_read`) passes validation and evaluates to false |
| RuleEngineProps.TwoDayOldEmail | gmail_rule_processor/tests/test_rule_engine.py:37-45 | an email from two days ago is within 3 days and older than 1 day |
| RuleEngineProps.UnparsableDateIsFalse | gmail_rule_processor/tests/test_rule_engine.py:134-138 | an unparsable received time makes a date condition false, not an error |
| RuleEngineProps.TextTestsIgnoreCase | gmail_rule_processor/rule_engine.py:213-225 | texts and values that lower-case alike give the same answer for every predicate |
| RuleEngineProps.CaseInsensitiveText | gmail_rule_processor/tests/test_rule_engine.py:59-71 | on the subject "Invoice for July": `not_contains` "PAYMENT" and `equals` "Invoice for July" hold, `not_equals` "invoice for july" does not, and "INVOICE" is contained |
| RuleEngineProps.MissingKeysRaise | gmail_rule_processor/tests/test_rule_engine.py:113-131 | a condition missing `field`, `predicate` or `value` raises the error naming the first missing key |
| RuleEngineProps.UnknownFieldRaises | gmail_rule_processor/tests/test_rule_engine.py:92-96 | an unsupported field name raises, whatever the email |
| RuleEngineProps.EmptyValueRaises | gmail_rule_processor/tests/test_rule_engine.py:106-110 | an empty value raises for every field and predicate |
| RuleEngineProps.ActOnAllAppend | gmail_rule_processor/rule_engine.py:257-262 | acting on two lists of matches one after the other is acting on their concatenation |
| RuleEngineProps.ActOnAllReportsEach | gmail_rule_processor/rule_engine.py:257-262 | the k-th report is the `perform_actions` outcome for the k-th match on the mailbox the earlier matches left |
| RuleEngineProps.LoaderIgnoresContents | gmail_rule_processor/rule_engine.py:42-52 | loading does not look at conditions or actions: any values under `rules` and `actions` load |
| RuleEngineProps.BadConditionStopsRun | gmail_rule_processor/rule_engine.py:243-248 | whatever the store and mailbox, one invalid condition makes the run raise that condition's error with no action taken |
| Fetcher.ScanParts | gmail_rule_processor/gmail_fetcher.py:191-195 | the scan returns the data of the first `text/plain` part with data; it fails exactly when such a part has no body, and finds nothing exactly when no part qualifies |
| Fetcher.ExtractBodyFirstPart | gmail_rule_processor/gmail_fetcher.py:187-223 | the first part the scan does not pass over decides the body: "" when it has no body, else its data decoded, and "" when decoding fails |
| Fetcher.ExtractBodyNoPart | gmail_rule_processor/gmail_fetcher.py:196-223 | with no qualifying part, the body is the payload's own data decoded when non-empty, and "" otherwise or when decoding fails |
| Fetcher.LastHeader | gmail_rule_processor/gmail_fetcher.py:140-149 | the header value used is that of the last header whose lower-cased name matches; missing exactly when none matches |
| Fetcher.FetchAndStoreEmails | gmail_rule_processor/gmail_fetcher.py:35-59 | the fetch fails exactly when the listing or some entry id is missing; it saves, in order, every message fetched before that point, counts them, and keeps the store valid |
| Fetcher.SaveAllStoresEach | gmail_rule_processor/gmail_fetcher.py:44-48 | saving a list of messages keeps ids unique, leaves a row for every saved message, and keeps every earlier row whose id none of them has |
| Fetcher.AbortKeepsEarlierSaves | gmail_rule_processor/gmail_fetcher.py:44-53 | an entry without an id ends the fetch, but the messages saved before it stay saved |
| Fetcher.HeaderExamples | gmail_rule_processor/gmail_fetcher.py:140-153 | header names match ignoring case, a later header overrides an earlier one, and absent headers take their defaults |
| Fetcher.BodyExamples | gmail_rule_processor/gmail_fetcher.py:189-202 | a plain-text part wins over the payload body, and the payload body is used when no part qualifies |
| Fetcher.PartWithoutBodyGivesEmpty | gmail_rule_processor/gmail_fetcher.py:193 | a `text/plain` part without a body makes the whole body empty, even when the payload has data |
| Pipeline.FetchedLabelsStored | gmail_rule_processor/gmail_fetcher.py:134 | a fetched message is mapped to exactly its Gmail label ids, on top of earlier mappings |
| Pipeline.FetchedReadFlagSeen | gmail_rule_processor/gmail_fetcher.py:135 | the read flag read back after a fetch is true exactly when UNREAD was absent |
| Pipeline.ReadConditionFollowsLabels | gmail_rule_processor/rule_engine.py:186-190 | `is_read equals "true"` holds for a fetched message exactly when it was not UNREAD |
| Pipeline.NaiveTimestampNeverMatches | gmail_rule_processor/rule_engine.py:158-171 | a received time without a UTC offset never satisfies a date condition |
| Pipeline.FallbackDateNeverMatches | gmail_rule_processor/gmail_fetcher.py:172-174 | a message stored with the fallback date never satisfies a date condition |
| Pipeline.ParsedDateIsCompared | gmail_rule_processor/gmail_fetcher.py:169-171 | a message with a parsable, aware Date header matches `less_than_days` exactly when its date is after the cutoff |

## Left out

- Reading the rule file and decoding JSON text: the model starts from a decoded document. The missing-file and invalid-JSON errors of `load_rules` are not modelled, and JSON floats are not represented.
- Unicode case mapping: `str.lower` is modelled for ASCII letters only.
- `datetime.fromisoformat`, `int()` on a string, `parsedate_to_datetime`, `isoformat` and base64url/UTF-8 decoding are parameters of the model. Their own behaviour is not modelled.
- The Gmail API: the network and authentication (`gmail_auth.py`) are not modelled. A failed list or get call is a missing value. `max_results` is not modelled, because the listing is given.
- Gmail's label ids for newly created labels: the service assigns them, so `Actions.NewLabelId` makes one up (`Label_` followed by more zeros than any existing id is long), promising only that it is new.
- The message in `_perform_move_action`'s `IndexError` branch, and `Unknown basic action`: both are unreachable, because dispatch only sends basic actions and `move:` strings.
- SQL itself, the table definitions, connection handling and `DatabaseError`: the store is a value and saving never fails. Rows are read back in rowid order.
- `get_emails_by_condition` in `database.py` and `get_email_count` in `gmail_fetcher.py`: neither is used by the rule engine or the fetch loop.
- Logging, `main.py` and `integration_testing.py`: they have no effect on the modelled state.
- A condition that is not an object: it gives a single `MalformedCondition` error. Python raises whatever the failing operation raises there, but it is always an error.
- Errors inside the evaluators are folded into the result `false`, each by the handler that catches it in the source, without modelling which one: `ValueError` and `TypeError` in the date test by `_evaluate_date_condition`'s own `except`; `OverflowError` from `timedelta` or the subtraction by `evaluate_condition`'s generic `except Exception`; `AttributeError` from `.lower()` on a non-string value by `_evaluate_boolean_condition`'s `except Exception` for `is_read`, and by `evaluate_condition`'s generic one for text fields.
- A message id of `None` in the listing is not modelled: ids are strings, and an entry either has one or lacks the key.
- RuleEngine.ActOnAll: its contract names the emails reported; the mailbox each call works on is stated by `RuleEngineProps.ActOnAllReportsEach`.
- Actions.PerformActions: its contract only covers the empty list; the loop is described by `Actions.RunActionsAppend`, `Actions.FailureStopsRun` and the effect lemmas.
