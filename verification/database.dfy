/** The local store of `database.py`, modelled as abstract state rather than
    SQL: the `emails` table as a sequence of rows in storage (rowid) order
    with unique ids, and the `email_labels` table as a set of
    (email id, label) pairs. */
module Database {
  import opened Wrappers
  import Text

  /** The dictionary handed to `save_email`; None marks a key that is absent. */
  datatype EmailData = EmailData(
    id: string,
    sender: Option<string>,
    subject: Option<string>,
    body: Option<string>,
    receivedAt: Option<string>,
    labelIds: Option<string>,
    isRead: Option<bool>)

  /** One row of the `emails` table. SQLite keeps a Python bool as 0 or 1 and
      a missing text column as NULL (None). */
  datatype Row = Row(
    id: string,
    sender: Option<string>,
    subject: Option<string>,
    body: Option<string>,
    receivedAt: Option<string>,
    labelIds: string,
    isRead: int)

  /** The record `get_all_emails` returns for one row; the rule engine reads it. */
  datatype Email = Email(
    id: string,
    sender: Option<string>,
    subject: Option<string>,
    body: Option<string>,
    receivedAt: Option<string>,
    labelIds: string,
    isRead: bool)

  datatype Store = Store(rows: seq<Row>, labels: set<(string, string)>)

  /** The `id TEXT PRIMARY KEY` constraint. */
  predicate UniqueIds(rows: seq<Row>) {
    forall i, j :: 0 <= i < j < |rows| ==> rows[i].id != rows[j].id
  }

  predicate Valid(s: Store) {
    UniqueIds(s.rows)
  }

  predicate HasId(rows: seq<Row>, id: string) {
    exists x :: x in rows && x.id == id
  }

  const Empty: Store := Store([], {})

  /** The row `save_email` writes: absent `label_ids` becomes "", absent
      `is_read` becomes False. */
  function RowOf(d: EmailData): Row {
    Row(d.id, d.sender, d.subject, d.body, d.receivedAt, d.labelIds.GetOr(""),
        if d.isRead.GetOr(false) then 1 else 0)
  }

  /** The rows with any other id, in their order (what the REPLACE conflict
      resolution leaves behind before it inserts). */
  function WithoutId(rows: seq<Row>, id: string): (r: seq<Row>)
    ensures forall x :: x in r <==> x in rows && x.id != id
    decreases |rows|
  {
    if |rows| == 0 then []
    else if rows[0].id == id then WithoutId(rows[1..], id)
    else [rows[0]] + WithoutId(rows[1..], id)
  }

  /** The rows after the first of a store with unique ids have unique ids,
      none of them the first row's. */
  lemma TailUnique(rows: seq<Row>)
    requires |rows| > 0 && UniqueIds(rows)
    ensures UniqueIds(rows[1..])
    ensures !HasId(rows[1..], rows[0].id)
  {
    var tail := rows[1..];
    forall i, j | 0 <= i < j < |tail| ensures tail[i].id != tail[j].id {
      assert tail[i] == rows[i + 1] && tail[j] == rows[j + 1];
    }
    forall x | x in tail ensures x.id != rows[0].id {
      var k :| 0 <= k < |tail| && tail[k] == x;
      assert rows[k + 1] == x;
    }
  }

  /** Dropping an id removes one row when the id is stored, none otherwise. */
  lemma {:induction false} WithoutIdLength(rows: seq<Row>, id: string)
    requires UniqueIds(rows)
    ensures |WithoutId(rows, id)| == if HasId(rows, id) then |rows| - 1 else |rows|
    decreases |rows|
  {
    if |rows| > 0 {
      var tail := rows[1..];
      TailUnique(rows);
      WithoutIdLength(tail, id);
      assert rows[0] in rows;
      if rows[0].id != id {
        assert HasId(rows, id) ==> HasId(tail, id) by {
          if HasId(rows, id) {
            var x :| x in rows && x.id == id;
            var k :| 0 <= k < |rows| && rows[k] == x;
            assert tail[k - 1] == x;
          }
        }
        assert HasId(tail, id) ==> HasId(rows, id) by {
          if HasId(tail, id) {
            var x :| x in tail && x.id == id;
            assert x in rows;
          }
        }
      }
    }
  }

  /** Dropping an id keeps the remaining ids unique. */
  lemma {:induction false} WithoutIdUnique(rows: seq<Row>, id: string)
    requires UniqueIds(rows)
    ensures UniqueIds(WithoutId(rows, id))
    decreases |rows|
  {
    if |rows| > 0 {
      var tail := rows[1..];
      TailUnique(rows);
      WithoutIdUnique(tail, id);
      if rows[0].id != id {
        var rest := WithoutId(tail, id);
        var r := [rows[0]] + rest;
        forall i, j | 0 <= i < j < |r| ensures r[i].id != r[j].id {
          if i == 0 {
            assert r[j] == rest[j - 1] && rest[j - 1] in rest;
          } else {
            assert r[i] == rest[i - 1] && r[j] == rest[j - 1];
          }
        }
      }
    }
  }

  /** Dropping one id keeps the others unique and removes exactly one row
      when the id was stored. */
  lemma WithoutIdCount(rows: seq<Row>, id: string)
    requires UniqueIds(rows)
    ensures UniqueIds(WithoutId(rows, id))
    ensures |WithoutId(rows, id)| == if HasId(rows, id) then |rows| - 1 else |rows|
  {
    WithoutIdUnique(rows, id);
    WithoutIdLength(rows, id);
  }

  /** A label as the Gmail API names it: non-empty, without a comma, and
      without surrounding whitespace. */
  predicate CleanLabel(x: string) {
    x != "" && ',' !in x && Text.Trimmed(x)
  }

  /** The label names `save_email` maps an email to: the comma-separated
      pieces of `label_ids`, each stripped of whitespace, empty ones dropped. */
  function LabelPieces(labelIds: string): (r: seq<string>)
    ensures forall x :: x in r ==> CleanLabel(x)
    ensures forall x :: x in r <==> exists p :: p in Text.Split(labelIds, ',') && x == Text.Strip(p) && x != ""
  {
    SplitPiecesHaveNoSeparator(labelIds, ',');
    if labelIds == "" then []
    else
      var r := StrippedPieces(Text.Split(labelIds, ','));
      assert forall x :: x in r ==> ',' !in x by {
        forall x | x in r ensures ',' !in x {
          var p :| p in Text.Split(labelIds, ',') && x == Text.Strip(p) && x != "";
        }
      }
      r
  }

  function StrippedPieces(pieces: seq<string>): (r: seq<string>)
    ensures forall x :: x in r ==> x != "" && Text.Trimmed(x)
    ensures forall x :: x in r <==> exists p :: p in pieces && x == Text.Strip(p) && x != ""
    decreases |pieces|
  {
    if |pieces| == 0 then []
    else
      var t := Text.Strip(pieces[0]);
      var rest := StrippedPieces(pieces[1..]);
      assert forall p :: p in pieces <==> p == pieces[0] || p in pieces[1..];
      if t == "" then rest else [t] + rest
  }

  /** No piece of a split holds the separator. */
  lemma {:induction false} SplitPiecesHaveNoSeparator(s: string, sep: char)
    ensures forall p :: p in Text.Split(s, sep) ==> sep !in p
    decreases |s|
  {
    if |s| > 0 {
      SplitPiecesHaveNoSeparator(s[1..], sep);
    }
  }

  /** `save_email`: INSERT OR REPLACE of the row (upsert by id; the new row
      goes last in storage order), then INSERT OR IGNORE of one
      (id, label) pair per label piece. Mappings already stored are kept. */
  function SaveEmail(s: Store, d: EmailData): (s': Store)
    ensures |s'.rows| >= 1 && s'.rows[|s'.rows| - 1] == RowOf(d)
    ensures Valid(s) ==> Valid(s')
    ensures forall x :: x in s'.rows <==> x == RowOf(d) || (x in s.rows && x.id != d.id)
    ensures Valid(s) ==> |s'.rows| == if HasId(s.rows, d.id) then |s.rows| else |s.rows| + 1
    ensures s.labels <= s'.labels
    ensures forall l :: (d.id, l) in s'.labels <==> (d.id, l) in s.labels || l in LabelPieces(d.labelIds.GetOr(""))
    ensures forall e, l :: e != d.id ==> ((e, l) in s'.labels <==> (e, l) in s.labels)
  {
    SplitPiecesHaveNoSeparator(d.labelIds.GetOr(""), ',');
    var kept := WithoutId(s.rows, d.id);
    var rows := kept + [RowOf(d)];
    assert Valid(s) ==> UniqueIds(rows) && |rows| == if HasId(s.rows, d.id) then |s.rows| else |s.rows| + 1 by {
      if Valid(s) {
        WithoutIdCount(s.rows, d.id);
        forall i, j | 0 <= i < j < |rows| ensures rows[i].id != rows[j].id {
          if j == |rows| - 1 {
            assert rows[i] in kept;
          }
        }
      }
    }
    var added := set l | l in LabelPieces(d.labelIds.GetOr("")) :: (d.id, l);
    Store(rows, s.labels + added)
  }

  /** The record `get_all_emails` builds from one row. */
  function EmailOf(r: Row): Email {
    Email(r.id, r.sender, r.subject, r.body, r.receivedAt, r.labelIds, r.isRead != 0)
  }

  /** `get_all_emails`: one record per row, in storage order. */
  function GetAllEmails(s: Store): (r: seq<Email>)
    ensures |r| == |s.rows|
    ensures forall i :: 0 <= i < |r| ==> r[i] == EmailOf(s.rows[i])
  {
    seq(|s.rows|, i requires 0 <= i < |s.rows| => EmailOf(s.rows[i]))
  }

  /** Saving then reading back: the saved email is the last record, it
      carries the saved fields (a missing `is_read` reads back False, a
      missing `label_ids` reads back ""), and no other record has its id. */
  lemma SaveThenRead(s: Store, d: EmailData)
    requires Valid(s)
    ensures var es := GetAllEmails(SaveEmail(s, d));
      && |es| >= 1
      && es[|es| - 1] == Email(d.id, d.sender, d.subject, d.body, d.receivedAt, d.labelIds.GetOr(""), d.isRead.GetOr(false))
      && forall k :: 0 <= k < |es| - 1 ==> es[k].id != d.id
  {
    var s' := SaveEmail(s, d);
    assert UniqueIds(s'.rows);
  }

  /** Re-saving an email never removes a label mapping made by an earlier
      save, even when the new `label_ids` no longer lists the label. */
  lemma {:induction false} StaleLabelsSurvive(s: Store, d1: EmailData, d2: EmailData, l: string)
    requires d1.id == d2.id
    requires l in LabelPieces(d1.labelIds.GetOr(""))
    ensures (d1.id, l) in SaveEmail(SaveEmail(s, d1), d2).labels
  {
    assert (d1.id, l) in SaveEmail(s, d1).labels;
  }

  /** A missing or empty `label_ids` adds no mapping. */
  lemma NoLabelsNoMappings(s: Store, d: EmailData)
    requires d.labelIds.GetOr("") == ""
    ensures SaveEmail(s, d).labels == s.labels
  {
  }

  /** Label mappings form a set: listing a label twice stores it once, so
      saving "A,A" or " A ,A" maps the same labels as saving "A". */
  lemma DuplicateLabelsCollapse(s: Store, d: EmailData, a: string)
    requires CleanLabel(a)
    ensures SaveEmail(s, d.(labelIds := Some(a + "," + a))).labels == SaveEmail(s, d.(labelIds := Some(a))).labels
    ensures SaveEmail(s, d.(labelIds := Some(" " + a + " " + "," + a))).labels == SaveEmail(s, d.(labelIds := Some(a))).labels
  {
    DoubledPieces(a);
    PaddedPieces(a);
  }

  lemma DoubledPieces(a: string)
    requires CleanLabel(a)
    ensures LabelPieces(a + "," + a) == [a, a]
    ensures LabelPieces(a) == [a]
  {
    Text.SplitJoin([a, a], ',');
    Text.SplitWithoutSeparator(a, ',');
    assert Text.Join([a, a], ',') == a + "," + a;
    assert Text.Split(a + "," + a, ',') == [a, a];
    assert Text.Strip(a) == a;
    assert StrippedPieces([a]) == [a];
    assert StrippedPieces([a, a]) == [a] + StrippedPieces([a, a][1..]);
    assert [a, a][1..] == [a];
  }

  lemma PaddedPieces(a: string)
    requires CleanLabel(a)
    ensures LabelPieces(" " + a + " " + "," + a) == [a, a]
  {
    PaddedSplit(a);
    PaddedStripped(a);
  }

  lemma PaddedSplit(a: string)
    requires CleanLabel(a)
    ensures Text.Split(" " + a + " " + "," + a, ',') == [" " + a + " ", a]
  {
    var padded := " " + a + " ";
    Text.SplitJoin([padded, a], ',');
    assert Text.Join([padded, a], ',') == padded + "," + a;
  }

  lemma PaddedStripped(a: string)
    requires CleanLabel(a)
    ensures StrippedPieces([" " + a + " ", a]) == [a, a]
  {
    Text.StripSpacePadded(a);
    StrippedCleanPieces([a]);
    StrippedPair(" " + a + " ", a);
  }

  lemma StrippedPair(p: string, q: string)
    requires Text.Strip(p) != ""
    ensures StrippedPieces([p, q]) == [Text.Strip(p)] + StrippedPieces([q])
  {
    assert [p, q][1..] == [q];
  }

  lemma {:induction false} StrippedCleanPieces(xs: seq<string>)
    requires forall i :: 0 <= i < |xs| ==> CleanLabel(xs[i])
    ensures StrippedPieces(xs) == xs
    decreases |xs|
  {
    if |xs| > 0 {
      var tail := xs[1..];
      assert forall i :: 0 <= i < |tail| ==> tail[i] == xs[i + 1];
      StrippedCleanPieces(tail);
      assert Text.Strip(xs[0]) == xs[0];
      assert [xs[0]] + tail == xs;
    }
  }

  lemma {:induction false} JoinStartsWithFirst(xs: seq<string>, sep: char)
    requires |xs| >= 1
    ensures |Text.Join(xs, sep)| >= |xs[0]|
  {
  }

  /** The label list survives the trip through the `label_ids` column:
      joining clean labels with "," and splitting them again as
      `save_email` does gives back the same labels in the same order. */
  lemma JoinedLabelsSplitBack(xs: seq<string>)
    requires forall x :: x in xs ==> CleanLabel(x)
    ensures LabelPieces(Text.Join(xs, ',')) == xs
  {
    if |xs| > 0 {
      assert forall i :: 0 <= i < |xs| ==> CleanLabel(xs[i]) by {
        forall i | 0 <= i < |xs| ensures CleanLabel(xs[i]) {
          assert xs[i] in xs;
        }
      }
      JoinStartsWithFirst(xs, ',');
      Text.SplitJoin(xs, ',');
      StrippedCleanPieces(xs);
    }
  }

  lemma {:induction false} WithoutIdDropsLast(kept: seq<Row>, row: Row)
    requires forall x :: x in kept ==> x.id != row.id
    ensures WithoutId(kept + [row], row.id) == kept
    decreases |kept|
  {
    var all := kept + [row];
    if |kept| == 0 {
      assert all[1..] == [];
    } else {
      assert all[1..] == kept[1..] + [row];
      WithoutIdDropsLast(kept[1..], row);
      assert [kept[0]] + kept[1..] == kept;
    }
  }

  /** Saving the same record twice is saving it once: re-fetching a message
      neither duplicates its row nor adds label mappings. */
  lemma SaveEmailIdempotent(s: Store, d: EmailData)
    ensures SaveEmail(SaveEmail(s, d), d) == SaveEmail(s, d)
  {
    var kept := WithoutId(s.rows, d.id);
    WithoutIdDropsLast(kept, RowOf(d));
  }
}
