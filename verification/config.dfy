/** The fixed tables of `config.py`: the fields and predicates a rule
    condition may name, the basic actions, the move-action prefix and the
    label Gmail uses for unread mail. The two enumerations also get a typed
    form, `Field` and `Predicate`, with their table names. */
module Config {
  import opened Wrappers

  const UnreadLabel: string := "UNREAD"

  const SupportedFields: seq<string> := ["sender", "subject", "body", "received_at", "is_read"]

  const SupportedPredicates: seq<string> :=
    ["contains", "not_contains", "equals", "not_equals", "less_than_days", "greater_than_days"]

  const SupportedActions: seq<string> := ["mark_read", "mark_unread"]

  const MoveActionPrefix: string := "move:"

  /** An email field a condition can test. */
  datatype Field = Sender | Subject | Body | ReceivedAt | IsRead {
    function Name(): string {
      match this
      case Sender => "sender"
      case Subject => "subject"
      case Body => "body"
      case ReceivedAt => "received_at"
      case IsRead => "is_read"
    }

    /** The three fields compared as text. */
    predicate IsText() {
      Sender? || Subject? || Body?
    }
  }

  /** A comparison a condition can apply. */
  datatype Predicate = Contains | NotContains | Equals | NotEquals | LessThanDays | GreaterThanDays {
    function Name(): string {
      match this
      case Contains => "contains"
      case NotContains => "not_contains"
      case Equals => "equals"
      case NotEquals => "not_equals"
      case LessThanDays => "less_than_days"
      case GreaterThanDays => "greater_than_days"
    }
  }

  /** Every field and every predicate, in table order. */
  const Fields: seq<Field> := [Sender, Subject, Body, ReceivedAt, IsRead]

  const Predicates: seq<Predicate> := [Contains, NotContains, Equals, NotEquals, LessThanDays, GreaterThanDays]

  /** The first entry of `table` whose name is `s`. */
  function FindNamed<T>(table: seq<T>, name: T -> string, s: string): (r: Option<T>)
    ensures r.Some? ==> name(r.value) == s
    decreases |table|
  {
    if |table| == 0 then None
    else if name(table[0]) == s then Some(table[0])
    else FindNamed(table[1..], name, s)
  }

  function FieldName(f: Field): string {
    f.Name()
  }

  function PredicateName(p: Predicate): string {
    p.Name()
  }

  /** The field a table name denotes. */
  function FieldNamed(s: string): (r: Option<Field>)
    ensures r.Some? ==> r.value.Name() == s
  {
    FindNamed(Fields, FieldName, s)
  }

  /** The predicate a table name denotes. */
  function PredicateNamed(s: string): (r: Option<Predicate>)
    ensures r.Some? ==> r.value.Name() == s
  {
    FindNamed(Predicates, PredicateName, s)
  }

  lemma {:induction false} FindNamedNone<T>(table: seq<T>, name: T -> string, s: string)
    ensures FindNamed(table, name, s).None? <==> forall i :: 0 <= i < |table| ==> name(table[i]) != s
    decreases |table|
  {
    if |table| > 0 {
      FindNamedNone(table[1..], name, s);
      forall i | 0 < i < |table| ensures table[i] == table[1..][i - 1] {
      }
    }
  }

  /** A name denotes a field exactly when SUPPORTED_FIELDS lists it. */
  lemma FieldNamedExact(s: string)
    ensures FieldNamed(s).Some? <==> s in SupportedFields
  {
    FindNamedNone(Fields, FieldName, s);
    forall i | 0 <= i < 5 ensures Fields[i].Name() == SupportedFields[i] {
    }
  }

  /** A name denotes a predicate exactly when SUPPORTED_PREDICATES lists it. */
  lemma PredicateNamedExact(s: string)
    ensures PredicateNamed(s).Some? <==> s in SupportedPredicates
  {
    FindNamedNone(Predicates, PredicateName, s);
    forall i | 0 <= i < 6 ensures Predicates[i].Name() == SupportedPredicates[i] {
    }
  }

  /** A field's own name denotes it. */
  lemma FieldNameDenotes(f: Field)
    ensures FieldNamed(f.Name()) == Some(f)
  {
    match f
    case Sender =>
    case Subject =>
    case Body =>
    case ReceivedAt =>
    case IsRead =>
  }

  /** A predicate's own name denotes it. */
  lemma PredicateNameDenotes(p: Predicate)
    ensures PredicateNamed(p.Name()) == Some(p)
  {
    match p
    case Contains =>
    case NotContains =>
    case Equals =>
    case NotEquals =>
    case LessThanDays =>
    case GreaterThanDays =>
  }

  /** Holds when no entry of `xs` appears twice. */
  predicate Distinct(xs: seq<string>) {
    forall i, j :: 0 <= i < j < |xs| ==> xs[i] != xs[j]
  }

  /** The field table lists every field exactly once, and a field's name
      denotes that field. */
  lemma FieldTableIsExact()
    ensures |SupportedFields| == 5 && Distinct(SupportedFields)
    ensures forall f: Field :: f.Name() in SupportedFields && FieldNamed(f.Name()) == Some(f)
    ensures forall s :: s in SupportedFields ==> exists f: Field :: f.Name() == s
  {
    assert Sender.Name() == SupportedFields[0];
    assert Subject.Name() == SupportedFields[1];
    assert Body.Name() == SupportedFields[2];
    assert ReceivedAt.Name() == SupportedFields[3];
    assert IsRead.Name() == SupportedFields[4];
    forall f: Field ensures FieldNamed(f.Name()) == Some(f) {
      FieldNameDenotes(f);
    }
  }

  /** The predicate table lists every predicate exactly once, and a
      predicate's name denotes that predicate. */
  lemma PredicateTableIsExact()
    ensures |SupportedPredicates| == 6 && Distinct(SupportedPredicates)
    ensures forall p: Predicate :: p.Name() in SupportedPredicates && PredicateNamed(p.Name()) == Some(p)
    ensures forall s :: s in SupportedPredicates ==> exists p: Predicate :: p.Name() == s
  {
    assert Contains.Name() == SupportedPredicates[0];
    assert NotContains.Name() == SupportedPredicates[1];
    assert Equals.Name() == SupportedPredicates[2];
    assert NotEquals.Name() == SupportedPredicates[3];
    assert LessThanDays.Name() == SupportedPredicates[4];
    assert GreaterThanDays.Name() == SupportedPredicates[5];
    forall p: Predicate ensures PredicateNamed(p.Name()) == Some(p) {
      PredicateNameDenotes(p);
    }
  }

  /** No basic action begins with the move prefix, so an action string is
      a basic action, a move, or neither, never two of these. */
  lemma ActionTablesDisjoint()
    ensures SupportedActions == ["mark_read", "mark_unread"] && MoveActionPrefix == "move:"
    ensures forall a :: a in SupportedActions ==> !(|MoveActionPrefix| <= |a| && a[..|MoveActionPrefix|] == MoveActionPrefix)
  {
    assert "mark_read"[..5][1] != MoveActionPrefix[1];
    assert "mark_unread"[..5][1] != MoveActionPrefix[1];
  }
}
