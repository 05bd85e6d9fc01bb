/** The action executor of `actions.py`: how an action string is classified
    and dispatched, what each action does to the target message's label set,
    and the in-order, stop-at-first-failure loop. The Gmail service is
    modelled as an abstract mailbox: each message's set of label ids plus
    the account's label catalogue. */
module Actions {
  import opened Wrappers
  import opened Config
  import Text
  import Json

  /** A label of the account's catalogue (`labels().list`). */
  datatype Label = Label(id: string, name: string)

  /** The state the Gmail API changes: label ids per message id, and the
      label catalogue in listing order. */
  datatype Mailbox = Mailbox(messages: map<string, set<string>>, labels: seq<Label>)

  datatype ActionError =
    | Unsupported(action: string)       // "Unsupported action: ..."
    | EmptyLabelName                    // "Label name cannot be empty"
    | NotAString(value: Json.Value)     // `action.startswith` on a non-string
    | NotIterable                       // `for action in actions` on a scalar
    | MessageNotFound(id: string)       // `messages().modify` on an unknown id

  /** The state after an action or a run of actions, and whether it failed.
      A failure keeps the effects of the steps that came before it. */
  datatype Step = Step(mailbox: Mailbox, outcome: Outcome<ActionError>)

  datatype BasicAction = MarkRead | MarkUnread

  /** The three branches of `_perform_single_action`. */
  datatype Dispatch = Basic(kind: BasicAction) | Move(labelName: string) | Unknown

  // ---------------------------------------------------------------------
  // Classification

  /** `_perform_single_action`'s choice of handler: the basic table first,
      then the move prefix, whose label is `action.split(':', 1)[1]`. */
  function Classify(a: string): (d: Dispatch)
    ensures d.Basic? <==> a in SupportedActions
    ensures d.Basic? ==> (d.kind == MarkRead <==> a == "mark_read")
    ensures d.Move? <==> a !in SupportedActions && Text.StartsWith(a, MoveActionPrefix)
    ensures d.Move? ==> d.labelName == a[|MoveActionPrefix|..]
  {
    if a in SupportedActions then Basic(if a == "mark_read" then MarkRead else MarkUnread)
    else if Text.StartsWith(a, MoveActionPrefix) then
      assert a[4] == ':' && ':' !in a[..4];
      // a ':' always follows the prefix, so Python's IndexError branch is dead
      Move(Text.AfterFirst(a, ':').GetOr(""))
    else Unknown
  }

  /** `validate_action`. */
  function ValidateAction(a: string): bool {
    if a in SupportedActions then true
    else if Text.StartsWith(a, MoveActionPrefix) then
      var labelName := if ':' in a then Text.AfterFirst(a, ':').GetOr("") else "";
      labelName != ""
    else false
  }

  /** `validate_action` accepts exactly the two basic actions and `move:`
      followed by at least one character. */
  lemma ValidateActionExact(a: string)
    ensures ValidateAction(a) <==> a == "mark_read" || a == "mark_unread"
                                   || (Text.StartsWith(a, MoveActionPrefix) && |a| > |MoveActionPrefix|)
  {
    if a !in SupportedActions && Text.StartsWith(a, MoveActionPrefix) {
      assert Classify(a).labelName == a[5..];
    }
  }

  /** The move label is everything after the first colon and may hold
      further colons. */
  lemma MoveLabelKeepsLaterColons()
    ensures Classify("move:a:b") == Move("a:b")
    ensures Classify("move:") == Move("")
  {
    var a := "move:a:b";
    assert a[..5] == MoveActionPrefix;
    assert a[1] != "mark_read"[1] && a[1] != "mark_unread"[1];
    assert a !in SupportedActions;
    assert a[5..] == "a:b";
    var b := "move:";
    assert b[..5] == MoveActionPrefix;
    assert b[1] != "mark_read"[1] && b[1] != "mark_unread"[1];
    assert b !in SupportedActions;
  }

  /** `get_supported_actions`. */
  function GetSupportedActions(): (r: seq<string>)
    ensures |r| == |SupportedActions| + 1 && r[..|SupportedActions|] == SupportedActions
    ensures r[|r| - 1] == MoveActionPrefix + "label_name"
    ensures forall a :: a in r ==> ValidateAction(a)
  {
    var r := SupportedActions + [MoveActionPrefix + "label_name"];
    ValidateActionExact(r[2]);
    assert Text.StartsWith(r[2], MoveActionPrefix);
    r
  }

  // ---------------------------------------------------------------------
  // The service: label lookup and message modification

  /** Label names are compared case-insensitively. */
  predicate SameName(a: string, b: string) {
    Text.Lower(a) == Text.Lower(b)
  }

  /** Index of the first catalogue label, at `from` or later, whose name
      matches. */
  function FindLabel(labels: seq<Label>, name: string, from: nat): (r: Option<nat>)
    requires from <= |labels|
    ensures r.Some? ==> from <= r.value < |labels| && SameName(labels[r.value].name, name)
    ensures forall j :: from <= j < (if r.Some? then r.value else |labels|) ==> !SameName(labels[j].name, name)
    decreases |labels| - from
  {
    if from == |labels| then None
    else if SameName(labels[from].name, name) then Some(from)
    else FindLabel(labels, name, from + 1)
  }

  /** The length of the longest label id in the catalogue. */
  function LongestId(labels: seq<Label>): (n: nat)
    ensures forall i :: 0 <= i < |labels| ==> |labels[i].id| <= n
    decreases |labels|
  {
    if |labels| == 0 then 0
    else
      var rest := LongestId(labels[1..]);
      assert forall i :: 1 <= i < |labels| ==> labels[i] == labels[1..][i - 1];
      if |labels[0].id| < rest then rest else |labels[0].id|
  }

  /** The id the service gives a label it creates. Gmail's own choice is not
      visible; this model takes an id longer than every id in the catalogue,
      so it names no existing label. */
  function NewLabelId(labels: seq<Label>): (id: string)
    ensures forall i :: 0 <= i < |labels| ==> labels[i].id != id
  {
    "Label_" + seq(LongestId(labels), _ => '0')
  }

  /** `get_or_create_label`: the id of the first label whose name matches
      case-insensitively; only when none matches is a label created (and
      appended to the catalogue). */
  function GetOrCreateLabel(mb: Mailbox, name: string): (r: (Mailbox, string))
    ensures r.0.messages == mb.messages
    ensures forall i :: 0 <= i < |mb.labels| && SameName(mb.labels[i].name, name)
                        && (forall j :: 0 <= j < i ==> !SameName(mb.labels[j].name, name))
                        ==> r == (mb, mb.labels[i].id)
    ensures (forall i :: 0 <= i < |mb.labels| ==> !SameName(mb.labels[i].name, name))
            ==> && r.0.labels == mb.labels + [Label(r.1, name)]
                && forall i :: 0 <= i < |mb.labels| ==> mb.labels[i].id != r.1
  {
    match FindLabel(mb.labels, name, 0)
    case Some(i) => (mb, mb.labels[i].id)
    case None =>
      var id := NewLabelId(mb.labels);
      (mb.(labels := mb.labels + [Label(id, name)]), id)
  }

  /** `messages().modify`: add and remove label ids on one message; fails
      when the message does not exist. */
  function Modify(mb: Mailbox, id: string, add: set<string>, remove: set<string>): Step {
    if id !in mb.messages then Step(mb, Fail(MessageNotFound(id)))
    else Step(mb.(messages := mb.messages[id := (mb.messages[id] - remove) + add]), Pass)
  }

  // ---------------------------------------------------------------------
  // Performing actions

  /** `_perform_single_action` with `_perform_basic_action` and
      `_perform_move_action`. In a move the label is found or created before
      the message is modified, so a failed modify leaves a created label. */
  function PerformSingle(mb: Mailbox, id: string, action: Json.Value): Step {
    match action
    case Str(a) => (
      match Classify(a)
      case Basic(MarkRead) => Modify(mb, id, {}, {UnreadLabel})
      case Basic(MarkUnread) => Modify(mb, id, {UnreadLabel}, {})
      case Move(name) =>
        if name == "" then Step(mb, Fail(EmptyLabelName))
        else
          var (mb1, labelId) := GetOrCreateLabel(mb, name);
          Modify(mb1, id, {labelId}, {})
      case Unknown => Step(mb, Fail(Unsupported(a))))
    case _ => Step(mb, Fail(NotAString(action)))
  }

  /** The loop of `perform_actions`: actions in list order, stopping at the
      first failure, which is reported. */
  function RunActions(mb: Mailbox, id: string, acts: seq<Json.Value>): (r: Step)
    decreases |acts|
  {
    if |acts| == 0 then Step(mb, Pass)
    else
      var first := PerformSingle(mb, id, acts[0]);
      if first.outcome.Fail? then first
      else RunActions(first.mailbox, id, acts[1..])
  }

  /** `perform_actions`: an empty (falsy) action list does nothing; a
      non-iterable one fails; otherwise the loop above. */
  function PerformActions(mb: Mailbox, id: string, actions: Json.Value): (r: Step)
    ensures !Json.Truthy(actions) ==> r == Step(mb, Pass)
  {
    if !Json.Truthy(actions) then Step(mb, Pass)
    else
      match Json.Elements(actions)
      case None => Step(mb, Fail(NotIterable))
      case Some(acts) => RunActions(mb, id, acts)
  }

  // ---------------------------------------------------------------------
  // Properties

  /** Dispatch agrees with `validate_action`: an action it accepts is never
      rejected as unsupported or for an empty label, so it can only fail
      because the message is missing; an action it rejects always fails as
      unsupported or for an empty label, leaving the mailbox untouched. */
  lemma DispatchAgreesWithValidation(mb: Mailbox, id: string, a: string)
    ensures ValidateAction(a) ==> var st := PerformSingle(mb, id, Json.Str(a));
      st.outcome.Pass? <==> id in mb.messages
    ensures ValidateAction(a) ==> var st := PerformSingle(mb, id, Json.Str(a));
      st.outcome.Fail? ==> st.outcome.error == MessageNotFound(id)
    ensures !ValidateAction(a) ==> var st := PerformSingle(mb, id, Json.Str(a));
      && st.mailbox == mb
      && (st.outcome == Fail(Unsupported(a)) || st.outcome == Fail(EmptyLabelName))
  {
    ValidateActionExact(a);
    if Classify(a).Move? {
      assert |a[|MoveActionPrefix|..]| == |a| - |MoveActionPrefix|;
    }
  }

  /** `mark_read` removes UNREAD from the message and changes nothing else. */
  lemma MarkReadEffect(mb: Mailbox, id: string)
    requires id in mb.messages
    ensures var st := PerformSingle(mb, id, Json.Str("mark_read"));
      && st.outcome.Pass?
      && st.mailbox.messages == mb.messages[id := mb.messages[id] - {UnreadLabel}]
      && st.mailbox.labels == mb.labels
  {
    assert SupportedActions[0] == "mark_read";
    assert Classify("mark_read") == Basic(MarkRead);
    assert (mb.messages[id] - {UnreadLabel}) + {} == mb.messages[id] - {UnreadLabel};
  }

  /** `mark_unread` adds UNREAD to the message and changes nothing else. */
  lemma MarkUnreadEffect(mb: Mailbox, id: string)
    requires id in mb.messages
    ensures var st := PerformSingle(mb, id, Json.Str("mark_unread"));
      && st.outcome.Pass?
      && st.mailbox.messages == mb.messages[id := mb.messages[id] + {UnreadLabel}]
      && st.mailbox.labels == mb.labels
  {
    assert SupportedActions[1] == "mark_unread";
    assert Classify("mark_unread") == Basic(MarkUnread);
    assert (mb.messages[id] - {}) + {UnreadLabel} == mb.messages[id] + {UnreadLabel};
  }

  /** `move:L` adds the id of label L (found or created) to the message and
      changes no other message; the catalogue grows by at most that label. */
  lemma MoveEffect(mb: Mailbox, id: string, name: string)
    requires id in mb.messages
    requires name != ""
    ensures var st := PerformSingle(mb, id, Json.Str(MoveActionPrefix + name));
      var (mb1, labelId) := GetOrCreateLabel(mb, name);
      && st.outcome.Pass?
      && st.mailbox.messages == mb.messages[id := mb.messages[id] + {labelId}]
      && st.mailbox.labels == mb1.labels
      && (st.mailbox.labels == mb.labels || st.mailbox.labels == mb.labels + [Label(labelId, name)])
  {
    var a := MoveActionPrefix + name;
    assert Text.StartsWith(a, MoveActionPrefix);
    assert a !in SupportedActions by {
      ActionTablesDisjoint();
    }
    assert a[|MoveActionPrefix|..] == name;
    assert Classify(a) == Move(name);
    var (mb1, labelId) := GetOrCreateLabel(mb, name);
    assert (mb1.messages[id] - {}) + {labelId} == mb.messages[id] + {labelId};
    if FindLabel(mb.labels, name, 0).Some? {
      assert mb1.labels == mb.labels;
    } else {
      assert mb1.labels == mb.labels + [Label(labelId, name)];
    }
  }

  /** Running `xs + ys` runs `xs` first and continues with `ys` only if all
      of `xs` succeeded: actions run in list order and the first failure
      ends the run. */
  lemma {:induction false} RunActionsAppend(mb: Mailbox, id: string, xs: seq<Json.Value>, ys: seq<Json.Value>)
    ensures var first := RunActions(mb, id, xs);
      RunActions(mb, id, xs + ys) == if first.outcome.Fail? then first else RunActions(first.mailbox, id, ys)
    decreases |xs|
  {
    if |xs| == 0 {
      assert xs + ys == ys;
    } else {
      assert (xs + ys)[0] == xs[0];
      assert (xs + ys)[1..] == xs[1..] + ys;
      var st := PerformSingle(mb, id, xs[0]);
      if st.outcome.Pass? {
        RunActionsAppend(st.mailbox, id, xs[1..], ys);
      }
    }
  }

  /** A failing action stops the run: nothing after it is attempted. */
  lemma FailureStopsRun(mb: Mailbox, id: string, a: Json.Value, rest: seq<Json.Value>)
    requires PerformSingle(mb, id, a).outcome.Fail?
    ensures RunActions(mb, id, [a] + rest) == PerformSingle(mb, id, a)
  {
  }

  /** One action touches only the target message: no message appears or
      disappears, every other message keeps its labels, and the catalogue
      only grows at the end. */
  lemma SingleTouchesOnlyTarget(mb: Mailbox, id: string, a: Json.Value)
    ensures var st := PerformSingle(mb, id, a);
      && st.mailbox.messages.Keys == mb.messages.Keys
      && (forall m :: m in mb.messages && m != id ==> st.mailbox.messages[m] == mb.messages[m])
      && |mb.labels| <= |st.mailbox.labels| && st.mailbox.labels[..|mb.labels|] == mb.labels
  {
    if a.Str? {
      match Classify(a.s)
      case Basic(MarkRead) => ModifyTouchesOnlyTarget(mb, id, {}, {UnreadLabel});
      case Basic(MarkUnread) => ModifyTouchesOnlyTarget(mb, id, {UnreadLabel}, {});
      case Move(name) =>
        if name != "" {
          var (mb1, labelId) := GetOrCreateLabel(mb, name);
          assert mb1.labels[..|mb.labels|] == mb.labels;
          ModifyTouchesOnlyTarget(mb1, id, {labelId}, {});
        }
      case Unknown =>
    }
  }

  /** A modify changes the target message only and never the catalogue. */
  lemma ModifyTouchesOnlyTarget(mb: Mailbox, id: string, add: set<string>, remove: set<string>)
    ensures var st := Modify(mb, id, add, remove);
      && st.mailbox.messages.Keys == mb.messages.Keys
      && (forall m :: m in mb.messages && m != id ==> st.mailbox.messages[m] == mb.messages[m])
      && st.mailbox.labels == mb.labels
  {
  }

  /** A whole run of actions touches only the target message. */
  lemma {:induction false} RunTouchesOnlyTarget(mb: Mailbox, id: string, acts: seq<Json.Value>)
    ensures var st := RunActions(mb, id, acts);
      && st.mailbox.messages.Keys == mb.messages.Keys
      && (forall m :: m in mb.messages && m != id ==> st.mailbox.messages[m] == mb.messages[m])
      && |mb.labels| <= |st.mailbox.labels| && st.mailbox.labels[..|mb.labels|] == mb.labels
    decreases |acts|
  {
    if |acts| > 0 {
      var first := PerformSingle(mb, id, acts[0]);
      SingleTouchesOnlyTarget(mb, id, acts[0]);
      if first.outcome.Pass? {
        RunTouchesOnlyTarget(first.mailbox, id, acts[1..]);
        var st := RunActions(first.mailbox, id, acts[1..]);
        assert st.mailbox.labels[..|mb.labels|] == st.mailbox.labels[..|first.mailbox.labels|][..|mb.labels|];
      }
    }
  }
}
