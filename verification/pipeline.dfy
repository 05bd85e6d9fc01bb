/** How the three stages meet: what the fetcher writes is what the store
    keeps and what the rule engine later reads. */
module Pipeline {
  import opened Wrappers
  import opened Config
  import Text
  import Json
  import Time
  import Database
  import Fetcher
  import RuleEngine
  import RuleEngineProps

  /** The record the rule engine reads for a message right after it was
      fetched and saved: the last row of the store. */
  function ReadBack(s: Database.Store, m: Fetcher.Message, codecs: Fetcher.Codecs, now: int): Database.Email {
    var es := Database.GetAllEmails(Database.SaveEmail(s, Fetcher.ParseEmailData(m, codecs, now)));
    es[|es| - 1]
  }

  /** The labels of a fetched message reach the `email_labels` table
      unchanged: with Gmail's label ids (non-empty, no comma, no surrounding
      blanks), the message is mapped to exactly its labels, on top of any
      mapping an earlier save made. */
  lemma FetchedLabelsStored(s: Database.Store, m: Fetcher.Message, codecs: Fetcher.Codecs, now: int)
    requires forall x :: x in m.labelIds ==> Database.CleanLabel(x)
    ensures var s' := Database.SaveEmail(s, Fetcher.ParseEmailData(m, codecs, now));
      forall l :: (m.id, l) in s'.labels <==> (m.id, l) in s.labels || l in m.labelIds
  {
    Database.JoinedLabelsSplitBack(m.labelIds);
  }

  /** The read flag the rule engine sees is the absence of the UNREAD label
      at fetch time. */
  lemma FetchedReadFlagSeen(s: Database.Store, m: Fetcher.Message, codecs: Fetcher.Codecs, now: int)
    requires Database.Valid(s)
    ensures ReadBack(s, m, codecs, now).isRead == (UnreadLabel !in m.labelIds)
    ensures ReadBack(s, m, codecs, now).id == m.id
  {
    Database.SaveThenRead(s, Fetcher.ParseEmailData(m, codecs, now));
  }

  /** So the condition `is_read equals "true"` (in any letter case) holds
      for a fetched message exactly when it was not UNREAD. */
  lemma ReadConditionFollowsLabels(s: Database.Store, m: Fetcher.Message, codecs: Fetcher.Codecs, now: int,
                                   v: string, env: RuleEngine.Env)
    requires Database.Valid(s)
    requires Text.Lower(v) == "true"
    ensures RuleEngine.EvalValid(ReadBack(s, m, codecs, now), RuleEngine.Condition(IsRead, Equals, Json.Str(v)), env)
            == (UnreadLabel !in m.labelIds)
  {
    var e := ReadBack(s, m, codecs, now);
    FetchedReadFlagSeen(s, m, codecs, now);
    assert RuleEngine.EvalValid(e, RuleEngine.Condition(IsRead, Equals, Json.Str(v)), env)
           == RuleEngine.EvalBool(e.isRead, Equals, Json.Str(v));
  }

  /** A stored timestamp without a UTC offset never satisfies a date
      condition: the source compares it with an aware clock, Python raises
      TypeError, and the condition is false. */
  lemma NaiveTimestampNeverMatches(received: string, p: Predicate, v: Json.Value, env: RuleEngine.Env)
    requires env.parseIso(received).Some? && !env.parseIso(received).value.aware
    ensures !RuleEngine.EvalDate(Some(received), p, v, env)
  {
  }

  /** A message without a Date header, or with one that does not parse, is
      stored with `datetime.utcnow().isoformat()`, which has no offset; when
      `fromisoformat` reads that text back as the naive time it was, no
      `less_than_days` or `greater_than_days` condition ever matches the
      message, however old or new it is. */
  lemma FallbackDateNeverMatches(s: Database.Store, m: Fetcher.Message, codecs: Fetcher.Codecs, now: int,
                                 p: Predicate, v: Json.Value, env: RuleEngine.Env)
    requires Database.Valid(s)
    requires var hs := m.payload.GetOr(Fetcher.EmptyPayload).headers;
      Fetcher.LastHeader(hs, "date").None? || codecs.parseDate(Fetcher.LastHeader(hs, "date").value).None?
    requires env.parseIso(Fetcher.NowIso(codecs, now)) == Some(Time.Timestamp(now, false))
    ensures ReadBack(s, m, codecs, now).receivedAt == Some(Fetcher.NowIso(codecs, now))
    ensures !RuleEngine.EvalValid(ReadBack(s, m, codecs, now), RuleEngine.Condition(ReceivedAt, p, v), env)
  {
    Database.SaveThenRead(s, Fetcher.ParseEmailData(m, codecs, now));
    NaiveTimestampNeverMatches(Fetcher.NowIso(codecs, now), p, v, env);
  }

  /** A date header that parses to an aware instant is evaluated against
      that instant: the message matches `less_than_days` exactly when it was
      received after the cutoff. */
  lemma ParsedDateIsCompared(s: Database.Store, m: Fetcher.Message, codecs: Fetcher.Codecs, now: int,
                             v: Json.Value, env: RuleEngine.Env, t: Time.Timestamp)
    requires Database.Valid(s)
    requires var hs := m.payload.GetOr(Fetcher.EmptyPayload).headers;
      Fetcher.LastHeader(hs, "date").Some? && codecs.parseDate(Fetcher.LastHeader(hs, "date").value) == Some(t)
    requires t.aware && env.parseIso(codecs.isoFormat(t)) == Some(t)
    requires RuleEngine.DaysOf(v, env).Some? && Time.DaysBefore(env.now, RuleEngine.DaysOf(v, env).value).Some?
    ensures RuleEngine.EvalValid(ReadBack(s, m, codecs, now), RuleEngine.Condition(ReceivedAt, LessThanDays, v), env)
            <==> t.micros > Time.DaysBefore(env.now, RuleEngine.DaysOf(v, env).value).value
  {
    var e := ReadBack(s, m, codecs, now);
    assert e.receivedAt == Some(codecs.isoFormat(t)) by {
      Database.SaveThenRead(s, Fetcher.ParseEmailData(m, codecs, now));
    }
    var days := RuleEngine.DaysOf(v, env).value;
    var cutoff := Time.DaysBefore(env.now, days).value;
    assert RuleEngine.EvalDate(Some(codecs.isoFormat(t)), LessThanDays, v, env) <==> t.micros > cutoff by {
      RuleEngineProps.DateTestAt(codecs.isoFormat(t), LessThanDays, v, env, t.micros, days, cutoff);
    }
    assert RuleEngine.EvalValid(e, RuleEngine.Condition(ReceivedAt, LessThanDays, v), env)
           == RuleEngine.EvalDate(e.receivedAt, LessThanDays, v, env);
  }
}
