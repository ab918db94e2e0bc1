/** Attribute dictionaries: keys and values in two parallel arrays that grow in fixed steps. */
module Dictionary {
  import opened NetCdf
  import opened GrownArray

  /** A typed value; Int is a 32-bit, Long a 64-bit integer, Bool an int that is zero or not. */
  datatype Value =
    | Str(s: string)
    | Int(i: int)
    | Float(x: real)
    | Long(l: int)
    | Bool(b: int)
    | Dict(entries: seq<Entry<Value>>)
    | Arr(items: seq<Value>)

  datatype Entry<V> = Entry(key: string, value: V)

  predicate Distinct<V>(entries: seq<Entry<V>>) {
    forall i, j :: 0 <= i < j < |entries| ==> entries[i].key != entries[j].key
  }

  /** Position of a key, or the length. */
  function Find<V>(entries: seq<Entry<V>>, key: string): (i: nat)
    ensures i <= |entries| && (i < |entries| ==> entries[i].key == key)
    ensures forall j :: 0 <= j < i ==> entries[j].key != key
  {
    if |entries| == 0 || entries[0].key == key then 0 else 1 + Find(entries[1..], key)
  }

  function Set<V>(entries: seq<Entry<V>>, key: string, value: V): seq<Entry<V>> {
    var i := Find(entries, key);
    if i < |entries| then entries[i := Entry(key, value)] else entries + [Entry(key, value)]
  }

  function Del<V>(entries: seq<Entry<V>>, key: string): seq<Entry<V>> {
    var i := Find(entries, key);
    if i < |entries| then entries[..i] + entries[i + 1..] else entries
  }

  function Get<V>(entries: seq<Entry<V>>, key: string): Option<V> {
    var i := Find(entries, key);
    if i < |entries| then Some(entries[i].value) else None
  }

  // ----- entries as a map -----

  function AsMap<V>(entries: seq<Entry<V>>): map<string, V> {
    if |entries| == 0 then map[]
    else AsMap(entries[..|entries| - 1])[entries[|entries| - 1].key := entries[|entries| - 1].value]
  }

  function Lookup<V>(m: map<string, V>, key: string): Option<V> {
    if key in m then Some(m[key]) else None
  }

  lemma {:induction false} AsMapHas<V>(entries: seq<Entry<V>>)
    requires Distinct(entries)
    ensures forall i :: 0 <= i < |entries| ==>
              entries[i].key in AsMap(entries) && AsMap(entries)[entries[i].key] == entries[i].value
    ensures forall k :: k in AsMap(entries) ==> exists i :: 0 <= i < |entries| && entries[i].key == k
  {
    if |entries| > 0 {
      var front := entries[..|entries| - 1];
      AsMapHas(front);
      forall k | k in AsMap(entries) ensures exists i :: 0 <= i < |entries| && entries[i].key == k {
        if k != entries[|entries| - 1].key {
          var i :| 0 <= i < |front| && front[i].key == k;
          assert entries[i].key == k;
        }
      }
    }
  }

  lemma FindIs<V>(entries: seq<Entry<V>>, i: nat)
    requires Distinct(entries) && i < |entries|
    ensures Find(entries, entries[i].key) == i && Get(entries, entries[i].key) == Some(entries[i].value)
  {
  }

  lemma GetIsLookup<V>(entries: seq<Entry<V>>, key: string)
    requires Distinct(entries)
    ensures Get(entries, key) == Lookup(AsMap(entries), key)
  {
    AsMapHas(entries);
  }

  /** Entries are a map when every get is a lookup. */
  lemma GetsDecide<V>(entries: seq<Entry<V>>, m: map<string, V>)
    requires Distinct(entries) && forall k :: Get(entries, k) == Lookup(m, k)
    ensures AsMap(entries) == m
  {
    forall k ensures Lookup(AsMap(entries), k) == Lookup(m, k) {
      GetIsLookup(entries, k);
    }
    assert forall k :: k in m <==> Lookup(m, k).Some?;
    assert forall k :: k in AsMap(entries) <==> Lookup(AsMap(entries), k).Some?;
  }

  lemma GetAfterSet<V>(entries: seq<Entry<V>>, key: string, value: V, k: string)
    requires Distinct(entries)
    ensures Distinct(Set(entries, key, value))
    ensures Get(Set(entries, key, value), k) == if k == key then Some(value) else Get(entries, k)
  {
    var at, i := Find(entries, key), Find(entries, k);
    var after := Set(entries, key, value);
    if k == key {
      FindIs(after, at);
    } else if i < |entries| {
      FindIs(after, i);
    }
  }

  lemma SetIsUpdate<V>(entries: seq<Entry<V>>, key: string, value: V)
    requires Distinct(entries)
    ensures Distinct(Set(entries, key, value))
    ensures AsMap(Set(entries, key, value)) == AsMap(entries)[key := value]
  {
    GetAfterSet(entries, key, value, key);
    forall k ensures Get(Set(entries, key, value), k) == Lookup(AsMap(entries)[key := value], k) {
      GetAfterSet(entries, key, value, k);
      GetIsLookup(entries, k);
    }
    GetsDecide(Set(entries, key, value), AsMap(entries)[key := value]);
  }

  lemma GetAfterDel<V>(entries: seq<Entry<V>>, key: string, k: string)
    requires Distinct(entries)
    ensures Distinct(Del(entries, key))
    ensures Get(Del(entries, key), k) == if k == key then None else Get(entries, k)
  {
    var at, i := Find(entries, key), Find(entries, k);
    var after := Del(entries, key);
    if k != key && i < |entries| {
      FindIs(after, if i < at then i else i - 1);
    }
  }

  lemma DelDistinct<V>(entries: seq<Entry<V>>, key: string)
    requires Distinct(entries)
    ensures Distinct(Del(entries, key))
  {
    GetAfterDel(entries, key, key);
  }

  lemma DelIsRemove<V>(entries: seq<Entry<V>>, key: string)
    requires Distinct(entries)
    ensures Distinct(Del(entries, key))
    ensures AsMap(Del(entries, key)) == AsMap(entries) - {key}
  {
    GetAfterDel(entries, key, key);
    forall k ensures Get(Del(entries, key), k) == Lookup(AsMap(entries) - {key}, k) {
      GetAfterDel(entries, key, k);
      GetIsLookup(entries, k);
    }
    GetsDecide(Del(entries, key), AsMap(entries) - {key});
  }

  /** Setting leaves every key where it is and puts a new one last. */
  lemma SetKeepsPlaces<V>(entries: seq<Entry<V>>, key: string, value: V, k: string)
    requires Distinct(entries)
    ensures var at, n := Find(entries, key), |entries|;
            |Set(entries, key, value)| == (if at < n then n else n + 1)
            && Find(Set(entries, key, value), key) == at
            && (Find(entries, k) < n ==> Find(Set(entries, key, value), k) == Find(entries, k))
  {
    GetAfterSet(entries, key, value, key);
    var at, i := Find(entries, key), Find(entries, k);
    var after := Set(entries, key, value);
    FindIs(after, at);
    if i < |entries| {
      FindIs(after, i);
    }
  }

  /** Deleting moves the keys behind the deleted one up by one place and leaves those before it. */
  lemma DelKeepsOrder<V>(entries: seq<Entry<V>>, key: string, k: string)
    requires Distinct(entries)
    ensures var at, i, n := Find(entries, key), Find(entries, k), |entries|;
            |Del(entries, key)| == (if at < n then n - 1 else n)
            && (k != key && i < n ==> Find(Del(entries, key), k) == if i < at then i else i - 1)
  {
    GetAfterDel(entries, key, key);
    var at, i := Find(entries, key), Find(entries, k);
    var after := Del(entries, key);
    if k != key && i < |entries| {
      FindIs(after, if i < at then i else i - 1);
    }
  }

  // ----- the arrays -----

  class Attributes {
    var len: nat
    var key: array?<string>
    var value: array?<Value>
    /** PTR_ARRAY_MALLOC_LEN */
    const growth: nat
    ghost var Entries: seq<Entry<Value>>

    /** The arrays have at least the length of the element count rounded up; they keep a greater one
        when elements have been deleted. */
    ghost predicate Valid()
      reads this, key, value
    {
      growth > 0 && Distinct(Entries) && Holds(Entries)
      && if key == null then value == null
         else value != null && key.Length == value.Length && len + Slack(len, growth) <= key.Length
    }

    /** The first len places of the arrays are these entries. */
    ghost predicate Holds(entries: seq<Entry<Value>>)
      reads this, key, value
    {
      len == |entries|
      && (len > 0 ==> key != null && value != null && key.Length >= len && value.Length >= len)
      && (forall i: nat :: i < |entries| ==> key[i] == entries[i].key)
      && (forall i: nat :: i < |entries| ==> value[i] == entries[i].value)
    }

    constructor (growth: nat)
      requires growth > 0
      ensures Valid() && Entries == [] && this.growth == growth && key == null && value == null
    {
      this.growth := growth;
      len, key, value, Entries := 0, null, null, [];
    }

    /** dictSetAttr */
    method SetAttr(k: string, v: Value)
      requires Valid()
      modifies this, key, value
      ensures Valid() && Entries == Set(old(Entries), k, v)
      ensures fresh({key} - {old(key)}) && fresh({value} - {old(value)})
    {
      SetIsUpdate(Entries, k, v);
      var i := FindAttr(k);
      if i < len {
        Replace(i, v);
      } else {
        AddNew(k, v);
      }
    }

    method Replace(i: nat, v: Value)
      requires Valid() && i < len
      modifies this`Entries, value
      ensures Valid() && Entries == old(Entries)[i := Entry(old(Entries)[i].key, v)]
    {
      value[i] := v;
      Entries := Entries[i := Entry(Entries[i].key, v)];
    }

    method AddNew(k: string, v: Value)
      requires Valid() && Distinct(Entries + [Entry(k, v)])
      modifies this, key, value
      ensures Valid() && Entries == old(Entries) + [Entry(k, v)]
      ensures fresh({key} - {old(key)}) && fresh({value} - {old(value)})
    {
      if len % growth == 0 {
        Grow(Entries);
      }
      RoomForOne(len, growth, key.Length);
      Append(k, v, Entries);
      Entries := Entries + [Entry(k, v)];
    }

    method Append(k: string, v: Value, ghost entries: seq<Entry<Value>>)
      requires key != null && value != null && len < key.Length == value.Length && Holds(entries)
      modifies this`len, key, value
      ensures len == old(len) + 1 && Holds(entries + [Entry(k, v)])
    {
      key[len], value[len] := k, v;
      len := len + 1;
    }

    method Grow(ghost entries: seq<Entry<Value>>)
      requires growth > 0 && Holds(entries)
      modifies this`key, this`value
      ensures key != null && value != null && key.Length == value.Length == len + growth
      ensures fresh(key) && fresh(value) && Holds(entries)
    {
      var newKey := new string[len + growth](_ => "");
      var newValue := new Value[len + growth](_ => Int(0));
      if key != null && value != null {
        forall i | 0 <= i < len {
          newKey[i] := key[i];
        }
        forall i | 0 <= i < len {
          newValue[i] := value[i];
        }
      }
      key, value := newKey, newValue;
    }

    method FindAttr(k: string) returns (i: nat)
      requires Valid()
      ensures i == Find(Entries, k)
    {
      i := 0;
      while i < len && key[i] != k
        invariant i <= len
        invariant forall j :: 0 <= j < i ==> Entries[j].key != k
      {
        i := i + 1;
      }
    }

    /** dictGetAttr */
    method GetAttr(k: string) returns (v: Option<Value>)
      requires Valid()
      ensures v == Get(Entries, k)
    {
      var i := FindAttr(k);
      v := if i < len then Some(value[i]) else None;
    }

    method Snapshot() returns (s: seq<Entry<Value>>)
      requires Valid()
      ensures s == Entries
    {
      s := [];
      var i := 0;
      while i < len
        invariant i <= len && s == Entries[..i]
      {
        s := s + [Entry(key[i], value[i])];
        i := i + 1;
      }
    }

    /** dictDelAttr */
    method DelAttr(k: string)
      requires Valid()
      modifies this, key, value
      ensures Valid() && Entries == Del(old(Entries), k)
      ensures fresh({key} - {old(key), null}) && fresh({value} - {old(value), null})
    {
      DelDistinct(Entries, k);
      var i := FindAttr(k);
      if i == len {
        return;
      }
      CapacityMonotone(len - 1, len, growth);
      CloseGap(i, Entries);
      Entries := Del(Entries, k);
      if len <= 0 {
        key, value := null, null;
      }
    }

    method CloseGap(i: nat, ghost was: seq<Entry<Value>>)
      requires Holds(was) && i < len
      modifies this`len, key, value
      ensures len == old(len) - 1 && Holds(was[..i] + was[i + 1..])
    {
      len := len - 1;
      var j := i;
      while j < len
        invariant i <= j <= len == |was| - 1
        invariant forall m: nat :: m < i || j < m < |was| ==> key[m] == was[m].key && value[m] == was[m].value
        invariant forall m: nat :: i <= m < j ==> key[m] == was[m + 1].key && value[m] == was[m + 1].value
      {
        key[j], value[j] := key[j + 1], value[j + 1];
        j := j + 1;
      }
    }
  }

  // ----- runs -----

  datatype Op = SetOp(key: string, value: Value) | GetOp(key: string) | DelOp(key: string)

  function MapAfter(ops: seq<Op>): map<string, Value> {
    if |ops| == 0 then map[]
    else
      var before := MapAfter(ops[..|ops| - 1]);
      match ops[|ops| - 1]
      case SetOp(k, v) => before[k := v]
      case GetOp(_) => before
      case DelOp(k) => before - {k}
  }

  /** What a get as the last operation answers; the others answer nothing. */
  function AnswerAfter(ops: seq<Op>): Option<Value>
    requires |ops| > 0
  {
    if ops[|ops| - 1].GetOp? then Lookup(MapAfter(ops), ops[|ops| - 1].key) else None
  }

  /** Any run of sets, gets and deletes on an empty dictionary agrees with a finite map. */
  method RunOps(d: Attributes, ops: seq<Op>) returns (answers: seq<Option<Value>>)
    requires d.Valid() && d.Entries == []
    modifies d, d.key, d.value
    ensures d.Valid() && AsMap(d.Entries) == MapAfter(ops) && |answers| == |ops|
    ensures forall i: nat :: i < |ops| ==> answers[i] == AnswerAfter(ops[..i + 1])
  {
    answers := [];
    var i := 0;
    while i < |ops|
      invariant 0 <= i <= |ops| && |answers| == i
      invariant d.Valid() && AsMap(d.Entries) == MapAfter(ops[..i])
      invariant fresh({d.key} - {old(d.key), null}) && fresh({d.value} - {old(d.value), null})
      invariant forall j: nat :: j < i ==> answers[j] == AnswerAfter(ops[..j + 1])
    {
      assert ops[..i + 1][..i] == ops[..i];
      var answer := RunOp(d, ops[i], ops[..i + 1]);
      answers := answers + [answer];
      i := i + 1;
    }
    assert ops[..i] == ops;
  }

  method RunOp(d: Attributes, op: Op, ghost ops: seq<Op>) returns (answer: Option<Value>)
    requires d.Valid() && |ops| > 0 && op == ops[|ops| - 1] && AsMap(d.Entries) == MapAfter(ops[..|ops| - 1])
    modifies d, d.key, d.value
    ensures d.Valid() && AsMap(d.Entries) == MapAfter(ops) && answer == AnswerAfter(ops)
    ensures fresh({d.key} - {old(d.key), null}) && fresh({d.value} - {old(d.value), null})
  {
    answer := None;
    match op {
      case SetOp(k, v) =>
        SetIsUpdate(d.Entries, k, v);
        d.SetAttr(k, v);
      case GetOp(k) =>
        GetIsLookup(d.Entries, k);
        answer := d.GetAttr(k);
      case DelOp(k) =>
        DelIsRemove(d.Entries, k);
        d.DelAttr(k);
    }
  }
}
