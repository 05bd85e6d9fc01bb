/** An already-parsed JSON document, as `json.load` hands it to the rule
    loader, with the two Python behaviours the model needs: truthiness and
    what a `for` loop over a value visits. */
module Json {
  import opened Wrappers

  /** A JSON value. Objects keep their members in document order. */
  datatype Value =
    | Null
    | Bool(b: bool)
    | Int(i: int)
    | Str(s: string)
    | Arr(items: seq<Value>)
    | Obj(members: seq<(string, Value)>)

  /** Python truthiness (`if value:` / `not value`) of the decoded value. */
  predicate Truthy(v: Value) {
    match v
    case Null => false
    case Bool(b) => b
    case Int(i) => i != 0
    case Str(s) => s != ""
    case Arr(items) => |items| > 0
    case Obj(members) => |members| > 0
  }

  /** `dict.get(key)` on a decoded object: the value of the last member named
      `key` (a later duplicate overwrites an earlier one in `json.load`). */
  function Lookup(members: seq<(string, Value)>, key: string): Option<Value>
    decreases |members|
  {
    if |members| == 0 then None
    else if members[|members| - 1].0 == key then Some(members[|members| - 1].1)
    else Lookup(members[..|members| - 1], key)
  }

  /** The lookup finds nothing exactly when no member has the key, and
      otherwise the value of the last member that has it. */
  lemma {:induction false} LookupMeaning(members: seq<(string, Value)>, key: string)
    ensures Lookup(members, key).None? <==> forall i :: 0 <= i < |members| ==> members[i].0 != key
    ensures Lookup(members, key).Some? ==>
      exists i :: && 0 <= i < |members| && members[i] == (key, Lookup(members, key).value)
                  && forall j :: i < j < |members| ==> members[j].0 != key
    decreases |members|
  {
    if |members| > 0 && members[|members| - 1].0 != key {
      var front := members[..|members| - 1];
      LookupMeaning(front, key);
      forall i | 0 <= i < |front| ensures front[i] == members[i] {
      }
      if Lookup(front, key).Some? {
        var i :| 0 <= i < |front| && front[i] == (key, Lookup(front, key).value)
                 && forall j :: i < j < |front| ==> front[j].0 != key;
        assert members[i] == front[i];
        forall j | i < j < |members| ensures members[j].0 != key {
          if j < |front| {
            assert members[j] == front[j];
          }
        }
      }
    }
  }

  /** Appending a member shadows earlier ones of the same name and leaves
      other names alone. */
  lemma LookupAppend(members: seq<(string, Value)>, key: string, k: string, v: Value)
    ensures Lookup(members + [(k, v)], key) == if k == key then Some(v) else Lookup(members, key)
  {
    assert (members + [(k, v)])[..|members|] == members;
  }

  /** `key in dict`. */
  predicate HasKey(members: seq<(string, Value)>, key: string) {
    Lookup(members, key).Some?
  }

  /** `k` names some member of the object. */
  predicate KeyOf(members: seq<(string, Value)>, k: string) {
    exists i :: 0 <= i < |members| && members[i].0 == k
  }

  /** The keys of a decoded object as the dict `json.load` builds holds
      them: each name once, in the place of its first occurrence (a later
      duplicate replaces the value, not the position). */
  function Keys(members: seq<(string, Value)>): (r: seq<string>)
    ensures |r| == 0 <==> |members| == 0
    decreases |members|
  {
    if |members| == 0 then []
    else
      var front := Keys(members[..|members| - 1]);
      var k := members[|members| - 1].0;
      if k in front then front else front + [k]
  }

  predicate Distinct(keys: seq<string>) {
    forall a, b :: 0 <= a < b < |keys| ==> keys[a] != keys[b]
  }

  /** Every occurrence of a later key comes after some occurrence of each
      earlier key: the keys are ordered by first occurrence. */
  predicate FirstOccurrenceOrder(members: seq<(string, Value)>, keys: seq<string>) {
    forall a, b, q :: 0 <= a < b < |keys| && 0 <= q < |members| && members[q].0 == keys[b]
      ==> exists p :: 0 <= p < q && members[p].0 == keys[a]
  }

  /** The keys are the member names, each exactly once, in order of first
      occurrence. */
  lemma {:induction false} KeysMeaning(members: seq<(string, Value)>)
    ensures Distinct(Keys(members))
    ensures forall k :: k in Keys(members) <==> KeyOf(members, k)
    ensures FirstOccurrenceOrder(members, Keys(members))
    decreases |members|
  {
    if |members| > 0 {
      var n := |members| - 1;
      var front := members[..n];
      var f := Keys(front);
      var k := members[n].0;
      var r := Keys(members);
      KeysMeaning(front);
      assert forall i :: 0 <= i < n ==> front[i] == members[i];
      forall x ensures x in r <==> KeyOf(members, x) {
        if KeyOf(members, x) {
          var i :| 0 <= i < |members| && members[i].0 == x;
          if i < n {
            assert front[i].0 == x;
          }
        }
        if x in f {
          var i :| 0 <= i < n && front[i].0 == x;
          assert members[i].0 == x;
        }
      }
      forall a, b, q | 0 <= a < b < |r| && 0 <= q < |members| && members[q].0 == r[b]
        ensures exists p :: 0 <= p < q && members[p].0 == r[a]
      {
        assert r[a] == f[a];
        if b < |f| {
          assert r[b] == f[b];
          var q' := q;
          if q == n {
            q' :| 0 <= q' < n && front[q'].0 == f[b];
          } else {
            assert front[q].0 == f[b];
          }
          var p :| 0 <= p < q' && front[p].0 == f[a];
          assert members[p].0 == r[a];
        } else {
          assert r[b] == k && k !in f;
          assert f[a] in f;
          var p :| 0 <= p < n && front[p].0 == f[a];
          assert members[p].0 == r[a];
        }
      }
    }
  }

  /** The values a Python `for` loop visits: the items of a list, the
      one-character strings of a string, the keys of an object; None where
      Python raises TypeError because the value is not iterable. */
  function Elements(v: Value): (r: Option<seq<Value>>)
    ensures r.None? <==> v.Null? || v.Bool? || v.Int?
    ensures v.Arr? ==> r == Some(v.items)
    ensures v.Str? ==> |r.value| == |v.s| && forall k :: 0 <= k < |v.s| ==> r.value[k] == Str([v.s[k]])
    ensures v.Obj? ==> var keys := Keys(v.members);
      |r.value| == |keys| && forall k :: 0 <= k < |keys| ==> r.value[k] == Str(keys[k])
  {
    match v
    case Arr(items) => Some(items)
    case Str(s) => Some(seq(|s|, k requires 0 <= k < |s| => Str([s[k]])))
    case Obj(members) =>
      var keys := Keys(members);
      Some(seq(|keys|, k requires 0 <= k < |keys| => Str(keys[k])))
    case _ => None
  }

  /** A repeated key is visited once, where it first appeared. */
  lemma DuplicateKeyVisitedOnce(a: string, b: string, x: Value, y: Value, z: Value)
    requires a != b
    ensures Elements(Obj([(a, x), (b, y), (a, z)])) == Some([Str(a), Str(b)])
    ensures Lookup([(a, x), (b, y), (a, z)], a) == Some(z)
  {
    var ms := [(a, x), (b, y), (a, z)];
    assert ms[..2][..1] == [(a, x)];
    assert Keys(ms[..2]) == [a, b];
    assert ms[..2] == [(a, x), (b, y)];
    assert Keys(ms) == [a, b];
    assert Elements(Obj(ms)).value == [Str(a), Str(b)];
  }

  /** A value that is truthy exactly when it yields elements: the empty list,
      string and object are both falsy and empty to a `for` loop. */
  lemma IterableTruthyIffNonEmpty(v: Value)
    requires Elements(v).Some?
    ensures Truthy(v) <==> |Elements(v).value| > 0
  {
  }
}
