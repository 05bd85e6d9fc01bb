/** The fetcher of `gmail_fetcher.py`: turning one Gmail API message into the
    record `save_email` stores (headers, body, read flag, label list, date),
    and the loop that fetches and stores every listed message, skipping the
    ones that fail.

    The Gmail API is reduced to what the loop sees: the listing (None when
    the list call raises) and a lookup from message id to message (None when
    the get call raises). RFC 2822 date parsing, `isoformat` and base64
    decoding are passed in as `Codecs`; the clock is a parameter. */
module Fetcher {
  import opened Wrappers
  import opened Config
  import Text
  import Time
  import Database

  /** One entry of `payload.headers`; None marks a missing key, which the
      source reads as "". */
  datatype Header = Header(name: Option<string>, value: Option<string>)

  /** A `body` object; `data` is base64url text. */
  datatype Body = Body(data: Option<string>)

  /** One entry of `payload.parts`. A part without a `body` key makes
      `part['body']` raise KeyError. */
  datatype Part = Part(mimeType: Option<string>, body: Option<Body>)

  /** `payload`; a missing `parts` or `body` key is None. */
  datatype Payload = Payload(headers: seq<Header>, parts: Option<seq<Part>>, body: Option<Body>)

  /** A message as `messages().get(format='full')` returns it; a missing
      `labelIds` is the empty list and a missing `payload` is `{}`. */
  datatype Message = Message(id: string, labelIds: seq<string>, payload: Option<Payload>)

  /** The library calls the fetcher relies on: `parsedate_to_datetime`
      (None where it raises), `datetime.isoformat`, and
      `urlsafe_b64decode(..).decode('utf-8', errors='ignore')` (None where
      it raises). */
  datatype Codecs = Codecs(
    parseDate: string -> Option<Time.Timestamp>,
    isoFormat: Time.Timestamp -> string,
    decodeBase64: string -> Option<string>)

  const EmptyPayload: Payload := Payload([], None, None)

  // ---------------------------------------------------------------------
  // Body

  /** `_decode_body_data`: a decoding failure gives the empty body. */
  function DecodeBody(data: string, codecs: Codecs): (r: string)
    ensures codecs.decodeBase64(data).None? ==> r == ""
    ensures codecs.decodeBase64(data).Some? ==> r == codecs.decodeBase64(data).value
  {
    codecs.decodeBase64(data).GetOr("")
  }

  /** `body.get('data')` as a string; a missing value is "" (both are falsy). */
  function DataOf(b: Body): string {
    b.data.GetOr("")
  }

  predicate PlainText(p: Part) {
    p.mimeType == Some("text/plain")
  }

  /** A part the scan goes past: not plain text, or plain text whose body
      holds no data. */
  predicate Skipped(p: Part) {
    !PlainText(p) || (p.body.Some? && DataOf(p.body.value) == "")
  }

  /** What the scan over the parts finds: the data of the first plain-text
      part that has some, a plain-text part without a body (KeyError), or
      nothing. */
  datatype Scan = Found(data: string) | Broken | Absent

  function ScanParts(parts: seq<Part>): (r: Scan)
    ensures r.Absent? <==> forall i :: 0 <= i < |parts| ==> Skipped(parts[i])
    ensures !r.Absent? ==> exists i :: 0 <= i < |parts| && !Skipped(parts[i])
                                       && (forall j :: 0 <= j < i ==> Skipped(parts[j]))
                                       && (r.Broken? <==> parts[i].body.None?)
                                       && (r.Found? ==> r.data == DataOf(parts[i].body.value))
    ensures r.Found? ==> r.data != ""
    decreases |parts|
  {
    if |parts| == 0 then Absent
    else if !Skipped(parts[0]) then
      if parts[0].body.None? then Broken else Found(DataOf(parts[0].body.value))
    else
      var tail := parts[1..];
      var r := ScanParts(tail);
      if r.Absent? then
        assert forall i :: 0 <= i < |parts| ==> Skipped(parts[i]) by {
          forall i | 0 < i < |parts| ensures Skipped(parts[i]) {
            assert parts[i] == tail[i - 1];
          }
        }
        r
      else
        ghost var i :| 0 <= i < |tail| && !Skipped(tail[i]) && (forall j :: 0 <= j < i ==> Skipped(tail[j]))
                       && (r.Broken? <==> tail[i].body.None?)
                       && (r.Found? ==> r.data == DataOf(tail[i].body.value));
        assert parts[i + 1] == tail[i];
        assert forall j :: 0 <= j < i + 1 ==> Skipped(parts[j]) by {
          forall j | 0 < j < i + 1 ensures Skipped(parts[j]) {
            assert parts[j] == tail[j - 1];
          }
        }
        r
  }

  /** `extract_body`: the first plain-text part with data, else the
      payload's own body, else "". A plain-text part without a `body` key
      before any part with data ends the search with "" (the KeyError is
      caught), without looking at the payload's body. */
  function ExtractBody(payload: Payload, codecs: Codecs): (r: string)
    ensures payload.parts.Some? && |payload.parts.value| > 0 ==>
      match ScanParts(payload.parts.value)
      case Found(data) => r == DecodeBody(data, codecs)
      case Broken => r == ""
      case Absent => r == BodyFallback(payload, codecs)
    ensures (payload.parts.None? || |payload.parts.value| == 0) ==> r == BodyFallback(payload, codecs)
  {
    if payload.parts.Some? && |payload.parts.value| > 0 then
      match ScanParts(payload.parts.value)
      case Found(data) => DecodeBody(data, codecs)
      case Broken => ""
      case Absent => BodyFallback(payload, codecs)
    else BodyFallback(payload, codecs)
  }

  /** `payload.get('body', {}).get('data')`, decoded when it is non-empty. */
  function BodyFallback(payload: Payload, codecs: Codecs): string {
    if payload.body.Some? && DataOf(payload.body.value) != "" then DecodeBody(DataOf(payload.body.value), codecs)
    else ""
  }

  // ---------------------------------------------------------------------
  // Headers

  /** `header.get('name', '').lower()`. */
  function NameOf(h: Header): string {
    Text.Lower(h.name.GetOr(""))
  }

  /** The value the header loop ends up with for `name`: each matching
      header overwrites the one before, so the last one wins. */
  function LastHeader(headers: seq<Header>, name: string): (r: Option<string>)
    ensures r.None? <==> forall i :: 0 <= i < |headers| ==> NameOf(headers[i]) != name
    ensures r.Some? ==> exists i :: 0 <= i < |headers| && NameOf(headers[i]) == name
                                   && r.value == headers[i].value.GetOr("")
                                   && forall j :: i < j < |headers| ==> NameOf(headers[j]) != name
    decreases |headers|
  {
    if |headers| == 0 then None
    else
      var last := headers[|headers| - 1];
      if NameOf(last) == name then Some(last.value.GetOr(""))
      else
        var front := headers[..|headers| - 1];
        assert forall i :: 0 <= i < |headers| - 1 ==> headers[i] == front[i];
        LastHeader(front, name)
  }

  /** `datetime.utcnow().isoformat()`: the current UTC wall clock, without
      an offset. */
  function NowIso(codecs: Codecs, now: int): string {
    codecs.isoFormat(Time.Timestamp(now, false))
  }

  /** `_parse_date_header`: the parsed date in ISO form, or the current time
      when the header does not parse. */
  function ParseDateHeader(value: string, codecs: Codecs, now: int): (r: string)
    ensures codecs.parseDate(value).Some? ==> r == codecs.isoFormat(codecs.parseDate(value).value)
    ensures codecs.parseDate(value).None? ==> r == NowIso(codecs, now)
  {
    match codecs.parseDate(value)
    case Some(t) => codecs.isoFormat(t)
    case None => NowIso(codecs, now)
  }

  // ---------------------------------------------------------------------
  // One message

  /** `_parse_email_data`: the record for `save_email`. Every key is
      present: sender and subject default to "Unknown" and "No Subject"
      only when no header of that name exists (an empty header is kept),
      and the date defaults to the current time. */
  function ParseEmailData(m: Message, codecs: Codecs, now: int): (d: Database.EmailData)
    ensures d.id == m.id
    ensures d.isRead == Some(UnreadLabel !in m.labelIds)
    ensures d.labelIds == Some(Text.Join(m.labelIds, ','))
    ensures d.body == Some(ExtractBody(m.payload.GetOr(EmptyPayload), codecs))
    ensures d.sender.Some? && d.subject.Some? && d.receivedAt.Some?
    ensures var hs := m.payload.GetOr(EmptyPayload).headers;
      && (LastHeader(hs, "from").None? ==> d.sender == Some("Unknown"))
      && (LastHeader(hs, "from").Some? ==> d.sender == LastHeader(hs, "from"))
      && (LastHeader(hs, "subject").None? ==> d.subject == Some("No Subject"))
      && (LastHeader(hs, "subject").Some? ==> d.subject == LastHeader(hs, "subject"))
      && (LastHeader(hs, "date").None? ==> d.receivedAt == Some(NowIso(codecs, now)))
      && (LastHeader(hs, "date").Some? ==> d.receivedAt == Some(ParseDateHeader(LastHeader(hs, "date").value, codecs, now)))
  {
    var payload := m.payload.GetOr(EmptyPayload);
    var hs := payload.headers;
    var received := match LastHeader(hs, "date")
      case Some(v) => ParseDateHeader(v, codecs, now)
      case None => NowIso(codecs, now);
    Database.EmailData(
      m.id,
      Some(LastHeader(hs, "from").GetOr("Unknown")),
      Some(LastHeader(hs, "subject").GetOr("No Subject")),
      Some(ExtractBody(payload, codecs)),
      Some(received),
      Some(Text.Join(m.labelIds, ',')),
      Some(UnreadLabel !in m.labelIds))
  }

  // ---------------------------------------------------------------------
  // The fetch loop

  /** The messages the loop saves, in listing order: one per entry whose
      get succeeds, up to the first entry without an id, where the loop
      aborts. */
  function Saved(entries: seq<Option<string>>, fetch: string -> Option<Message>): seq<Message>
    decreases |entries|
  {
    if |entries| == 0 || entries[0].None? then []
    else
      (match fetch(entries[0].value) case Some(m) => [m] case None => []) + Saved(entries[1..], fetch)
  }

  /** `save_email` applied to each message in turn. */
  function SaveAll(s: Database.Store, msgs: seq<Message>, codecs: Codecs, now: int): Database.Store
    decreases |msgs|
  {
    if |msgs| == 0 then s
    else SaveAll(Database.SaveEmail(s, ParseEmailData(msgs[0], codecs, now)), msgs[1..], codecs, now)
  }

  /** One step of the loop over the listing, for an entry with an id. */
  lemma SavedStep(entries: seq<Option<string>>, i: nat, fetch: string -> Option<Message>, s: Database.Store, codecs: Codecs, now: int)
    requires i < |entries| && entries[i].Some?
    ensures var rest := Saved(entries[i + 1..], fetch);
      match fetch(entries[i].value)
      case Some(m) =>
        && Saved(entries[i..], fetch) == [m] + rest
        && SaveAll(s, Saved(entries[i..], fetch), codecs, now)
           == SaveAll(Database.SaveEmail(s, ParseEmailData(m, codecs, now)), rest, codecs, now)
      case None => Saved(entries[i..], fetch) == rest
  {
    assert entries[i..][1..] == entries[i + 1..];
    if fetch(entries[i].value).Some? {
      var m := fetch(entries[i].value).value;
      var rest := Saved(entries[i + 1..], fetch);
      assert ([m] + rest)[1..] == rest;
    }
  }

  /** The outcome of `fetch_and_store_emails`. `failed` is the
      EmailFetchError it raises: when the listing fails, or when a listing
      entry has no id (the error handler's own `msg['id']` raises again). */
  datatype FetchRun = FetchRun(store: Database.Store, processed: nat, failed: bool)

  /** `fetch_and_store_emails` after the listing call: each listed message
      is fetched, parsed and saved; one that cannot be fetched is skipped
      and the loop continues. Saves made before an abort stay. */
  method FetchAndStoreEmails(store: Database.Store, listing: Option<seq<Option<string>>>,
                             fetch: string -> Option<Message>, codecs: Codecs, now: int)
    returns (run: FetchRun)
    ensures run.failed <==> listing.None? || exists i :: 0 <= i < |listing.value| && listing.value[i].None?
    ensures listing.None? ==> run.store == store && run.processed == 0
    ensures listing.Some? ==> run.store == SaveAll(store, Saved(listing.value, fetch), codecs, now)
    ensures listing.Some? ==> run.processed == |Saved(listing.value, fetch)|
    ensures Database.Valid(store) ==> Database.Valid(run.store)
    ensures forall m :: m in (if listing.Some? then Saved(listing.value, fetch) else []) ==> Database.HasId(run.store.rows, m.id)
  {
    if listing.None? {
      return FetchRun(store, 0, true);
    }
    var entries := listing.value;
    var s := store;
    var count := 0;
    var i := 0;
    while i < |entries|
      invariant 0 <= i <= |entries|
      invariant forall j :: 0 <= j < i ==> entries[j].Some?
      invariant SaveAll(s, Saved(entries[i..], fetch), codecs, now) == SaveAll(store, Saved(entries, fetch), codecs, now)
      invariant count + |Saved(entries[i..], fetch)| == |Saved(entries, fetch)|
      decreases |entries| - i
    {
      if entries[i].None? {
        assert Saved(entries[i..], fetch) == [];
        SaveAllStoresEach(store, Saved(entries, fetch), codecs, now);
        return FetchRun(s, count, true);
      }
      SavedStep(entries, i, fetch, s, codecs, now);
      var fetched := fetch(entries[i].value);
      if fetched.Some? {
        s := Database.SaveEmail(s, ParseEmailData(fetched.value, codecs, now));
        count := count + 1;
      }
      i := i + 1;
    }
    assert entries[i..] == [];
    SaveAllStoresEach(store, Saved(entries, fetch), codecs, now);
    return FetchRun(s, count, false);
  }

  // ---------------------------------------------------------------------
  // Properties

  /** Saving a list of messages keeps ids unique, stores every message it
      saved, and keeps every row whose id none of them has. */
  lemma SaveAllStoresEach(s: Database.Store, msgs: seq<Message>, codecs: Codecs, now: int)
    ensures Database.Valid(s) ==> Database.Valid(SaveAll(s, msgs, codecs, now))
    ensures forall m :: m in msgs ==> Database.HasId(SaveAll(s, msgs, codecs, now).rows, m.id)
    ensures forall x :: x in s.rows && (forall m :: m in msgs ==> m.id != x.id) ==> x in SaveAll(s, msgs, codecs, now).rows
  {
    SaveAllKeepsValid(s, msgs, codecs, now);
    SaveAllKeepsOthers(s, msgs, codecs, now);
    SaveAllHasEach(s, msgs, codecs, now);
  }

  lemma {:induction false} SaveAllKeepsValid(s: Database.Store, msgs: seq<Message>, codecs: Codecs, now: int)
    ensures Database.Valid(s) ==> Database.Valid(SaveAll(s, msgs, codecs, now))
    decreases |msgs|
  {
    if |msgs| > 0 {
      SaveAllKeepsValid(Database.SaveEmail(s, ParseEmailData(msgs[0], codecs, now)), msgs[1..], codecs, now);
    }
  }

  lemma {:induction false} SaveAllKeepsOthers(s: Database.Store, msgs: seq<Message>, codecs: Codecs, now: int)
    ensures forall x :: x in s.rows && (forall i :: 0 <= i < |msgs| ==> msgs[i].id != x.id) ==> x in SaveAll(s, msgs, codecs, now).rows
    decreases |msgs|
  {
    if |msgs| > 0 {
      var s1 := Database.SaveEmail(s, ParseEmailData(msgs[0], codecs, now));
      SaveAllKeepsOthers(s1, msgs[1..], codecs, now);
      forall x | x in s.rows && (forall i :: 0 <= i < |msgs| ==> msgs[i].id != x.id)
        ensures x in SaveAll(s, msgs, codecs, now).rows
      {
        assert msgs[0].id != x.id;
        assert x in s1.rows;
        forall i | 0 <= i < |msgs[1..]| ensures msgs[1..][i].id != x.id {
          assert msgs[1..][i] == msgs[i + 1];
        }
      }
    }
  }

  lemma {:induction false} SaveAllHasEach(s: Database.Store, msgs: seq<Message>, codecs: Codecs, now: int)
    ensures forall i :: 0 <= i < |msgs| ==> Database.HasId(SaveAll(s, msgs, codecs, now).rows, msgs[i].id)
    decreases |msgs|
  {
    if |msgs| > 0 {
      var d := ParseEmailData(msgs[0], codecs, now);
      var s1 := Database.SaveEmail(s, d);
      var tail := msgs[1..];
      var r := SaveAll(s1, tail, codecs, now);
      assert SaveAll(s, msgs, codecs, now) == r;
      SaveAllHasEach(s1, tail, codecs, now);
      assert Database.HasId(r.rows, msgs[0].id) by {
        assert Database.RowOf(d) in s1.rows && Database.RowOf(d).id == msgs[0].id;
        SaveAllHasStored(s1, tail, codecs, now, msgs[0].id);
      }
      forall i | 0 <= i < |msgs| ensures Database.HasId(r.rows, msgs[i].id) {
        if i == 0 {
          assert Database.HasId(r.rows, msgs[0].id);
        } else {
          assert msgs[i] == tail[i - 1];
          assert Database.HasId(r.rows, tail[i - 1].id);
        }
      }
    }
  }

  /** An id already stored stays stored: by its own row, or by the row of a
      later message with the same id. */
  lemma SaveAllHasStored(s: Database.Store, msgs: seq<Message>, codecs: Codecs, now: int, id: string)
    requires Database.HasId(s.rows, id)
    requires forall i :: 0 <= i < |msgs| ==> Database.HasId(SaveAll(s, msgs, codecs, now).rows, msgs[i].id)
    ensures Database.HasId(SaveAll(s, msgs, codecs, now).rows, id)
  {
    var x :| x in s.rows && x.id == id;
    SaveAllKeepsOthers(s, msgs, codecs, now);
    if x !in SaveAll(s, msgs, codecs, now).rows {
      var j :| 0 <= j < |msgs| && msgs[j].id == id;
    }
  }

  /** A listing entry without an id ends the loop: what comes after it is
      never fetched, and what came before it stays saved. */
  lemma {:induction false} AbortKeepsEarlierSaves(before: seq<Option<string>>, after: seq<Option<string>>, fetch: string -> Option<Message>)
    requires forall i :: 0 <= i < |before| ==> before[i].Some?
    ensures Saved(before + [None] + after, fetch) == Saved(before, fetch)
    decreases |before|
  {
    var all := before + [None] + after;
    if |before| == 0 {
      assert all[0] == None;
    } else {
      assert all[0] == before[0];
      assert all[1..] == before[1..] + [None] + after;
      AbortKeepsEarlierSaves(before[1..], after, fetch);
    }
  }

  /** Header names are compared after lower-casing, and among several
      headers of one name the last is taken, even when its value is empty;
      the default applies only when no header has the name. */
  lemma HeaderExamples(m: Message, codecs: Codecs, now: int, a: string)
    requires m.payload == Some(Payload([Header(Some("FROM"), Some(a)), Header(Some("From"), Some(""))], None, None))
    ensures ParseEmailData(m, codecs, now).sender == Some("")
    ensures ParseEmailData(m, codecs, now).subject == Some("No Subject")
    ensures ParseEmailData(m, codecs, now).receivedAt == Some(NowIso(codecs, now))
  {
    var hs := m.payload.value.headers;
    assert NameOf(hs[1]) == "from" by {
      assert forall i :: 0 <= i < 4 ==> Text.LowerChar("From"[i]) == "from"[i];
    }
    assert NameOf(hs[0]) == "from" by {
      assert forall i :: 0 <= i < 4 ==> Text.LowerChar("FROM"[i]) == "from"[i];
    }
    assert NameOf(hs[0]) != "subject" && NameOf(hs[0]) != "date";
  }

  /** The body comes from the first plain-text part with data; an HTML part
      or an empty plain-text part before it is passed over, and the
      payload's own body is used only when no part has plain-text data. */
  lemma BodyExamples(html: Part, empty: Part, plain: Part, codecs: Codecs, fallback: Body)
    requires !PlainText(html)
    requires PlainText(empty) && empty.body == Some(Body.Body(Some("")))
    requires PlainText(plain) && plain.body.Some? && DataOf(plain.body.value) != ""
    requires DataOf(fallback) != ""
    ensures ExtractBody(Payload([], Some([html, empty, plain]), Some(fallback)), codecs) == DecodeBody(DataOf(plain.body.value), codecs)
    ensures ExtractBody(Payload([], Some([html, empty]), Some(fallback)), codecs) == DecodeBody(DataOf(fallback), codecs)
    ensures ExtractBody(Payload([], Some([]), Some(fallback)), codecs) == DecodeBody(DataOf(fallback), codecs)
    ensures ExtractBody(Payload([], None, None), codecs) == ""
  {
    assert ScanParts([html, empty, plain]) == ScanParts([empty, plain]) by {
      assert [html, empty, plain][1..] == [empty, plain];
    }
    assert ScanParts([empty, plain]) == ScanParts([plain]) by {
      assert [empty, plain][1..] == [plain];
    }
    assert ScanParts([html, empty]) == Absent;
  }

  /** A plain-text part without a `body` key ends the search with an empty
      body, even when a later part or the payload itself has data. */
  lemma PartWithoutBodyGivesEmpty(broken: Part, rest: seq<Part>, fallback: Option<Body>, codecs: Codecs)
    requires PlainText(broken) && broken.body.None?
    ensures ExtractBody(Payload([], Some([broken] + rest), fallback), codecs) == ""
  {
    assert ([broken] + rest)[0] == broken;
  }
  /** `extract_body` read by part index: the first part the scan does not
      pass over decides the body. A plain-text part without a body gives
      ""; otherwise its data is base64-decoded, and data that does not
      decode gives "". */
  lemma ExtractBodyFirstPart(payload: Payload, codecs: Codecs, i: nat)
    requires payload.parts.Some? && i < |payload.parts.value|
    requires !Skipped(payload.parts.value[i])
    requires forall j :: 0 <= j < i ==> Skipped(payload.parts.value[j])
    ensures var part := payload.parts.value[i];
      && (part.body.None? ==> ExtractBody(payload, codecs) == "")
      && (part.body.Some? ==> ExtractBody(payload, codecs) == codecs.decodeBase64(DataOf(part.body.value)).GetOr(""))
  {
    var parts := payload.parts.value;
    var i' :| 0 <= i' < |parts| && !Skipped(parts[i']) && (forall j :: 0 <= j < i' ==> Skipped(parts[j]))
               && (ScanParts(parts).Broken? <==> parts[i'].body.None?)
               && (ScanParts(parts).Found? ==> ScanParts(parts).data == DataOf(parts[i'].body.value));
    assert i' == i;
  }

  /** When every part is passed over, or there are none, the body is the
      payload's own body data, decoded when non-empty, else "". */
  lemma ExtractBodyNoPart(payload: Payload, codecs: Codecs)
    requires payload.parts.Some? ==> forall j :: 0 <= j < |payload.parts.value| ==> Skipped(payload.parts.value[j])
    ensures payload.body.None? ==> ExtractBody(payload, codecs) == ""
    ensures payload.body.Some? ==> var data := DataOf(payload.body.value);
      ExtractBody(payload, codecs) == if data == "" then "" else codecs.decodeBase64(data).GetOr("")
  {
  }
}
