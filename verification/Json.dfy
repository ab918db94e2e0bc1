/** Packing dictionaries into JSON objects and unpacking them again. */
module Json {
  import opened NetCdf
  import opened Dictionary

  datatype Json =
    | Null
    | String(s: string)
    | Integer(i: int)
    | Real(x: real)
    | True
    | False
    | Object(members: seq<Entry<Json>>)
    | Array(elements: seq<Json>)

  const TWO_31 := 0x8000_0000
  const TWO_32 := 0x1_0000_0000

  /** Conversion of an integer to a 32-bit int: the one that differs by a multiple of 2^32. */
  function Wrap32(i: int): (r: int)
    ensures -0x8000_0000 <= r < 0x8000_0000 && (i - r) % 0x1_0000_0000 == 0
    ensures -0x8000_0000 <= i < 0x8000_0000 ==> r == i
  {
    (i + TWO_31) % TWO_32 - TWO_31
  }

  // ----- packing -----

  /** jsonPackDictionary on one value; arrays are not supported. */
  function PackValue(v: Value): Option<Json> {
    match v
    case Str(s) => Some(String(s))
    case Int(i) => Some(Integer(i))
    case Float(x) => Some(Real(x))
    case Long(l) => Some(Integer(l))
    case Bool(b) => Some(if b == 0 then False else True)
    case Dict(entries) => (match PackEntries(entries) case None => None case Some(members) => Some(Object(members)))
    case Arr(_) => None
  }

  function PackEntries(entries: seq<Entry<Value>>): Option<seq<Entry<Json>>> {
    if |entries| == 0 then Some([])
    else
      var last := entries[|entries| - 1];
      match PackEntries(entries[..|entries| - 1])
      case None => None
      case Some(members) =>
        match PackValue(last.value)
        case None => None
        case Some(j) => Some(Set(members, last.key, j))
  }

  // ----- unpacking -----

  function UnpackValue(j: Json): Result<Value> {
    match j
    case Null => Err(OOI_JSON_TYPE_ERR)
    case String(s) => Ok(Str(s))
    case Integer(i) => Ok(Int(Wrap32(i)))
    case Real(x) => Ok(Float(x))
    case True => Ok(Bool(1))
    case False => Ok(Bool(0))
    case Object(members) =>
      if |members| > 0 && UnpackValue(members[|members| - 1].value).Err? then Err(OOI_JSON_TYPE_ERR)
      else Ok(Dict(UnpackMembers(members)))
    case Array(elements) =>
      if |elements| > 0 && UnpackValue(elements[|elements| - 1]).Err? then Err(OOI_JSON_TYPE_ERR)
      else Ok(Arr(UnpackElements(elements)))
  }

  /** The members that can be unpacked. */
  function UnpackMembers(members: seq<Entry<Json>>): seq<Entry<Value>> {
    if |members| == 0 then []
    else
      var last := members[|members| - 1];
      var before := UnpackMembers(members[..|members| - 1]);
      match UnpackValue(last.value)
      case Ok(v) => Set(before, last.key, v)
      case Err(_) => before
  }

  function UnpackElements(elements: seq<Json>): seq<Value> {
    if |elements| == 0 then []
    else
      var before := UnpackElements(elements[..|elements| - 1]);
      match UnpackValue(elements[|elements| - 1])
      case Ok(v) => before + [v]
      case Err(_) => before
  }

  // ----- meaning -----

  /** A value without the order of dictionary entries. */
  datatype Meaning = Scalar(v: Value) | Table(entries: map<string, Meaning>) | List(items: seq<Meaning>)

  function Mean(v: Value): Meaning {
    match v
    case Dict(entries) => Table(AsMap(Means(entries)))
    case Arr(items) => List(seq(|items|, i requires 0 <= i < |items| => Mean(items[i])))
    case _ => Scalar(v)
  }

  function Means(entries: seq<Entry<Value>>): (r: seq<Entry<Meaning>>)
    ensures |r| == |entries|
  {
    seq(|entries|, i requires 0 <= i < |entries| => Entry(entries[i].key, Mean(entries[i].value)))
  }

  /** What JSON means to the unpacker. */
  function JsonMean(j: Json): Meaning {
    match j
    case Null => Scalar(Str(""))
    case String(s) => Scalar(Str(s))
    case Integer(i) => Scalar(Int(Wrap32(i)))
    case Real(x) => Scalar(Float(x))
    case True => Scalar(Bool(1))
    case False => Scalar(Bool(0))
    case Object(members) => Table(AsMap(JsonMeans(members)))
    case Array(elements) => List(seq(|elements|, i requires 0 <= i < |elements| => JsonMean(elements[i])))
  }

  function JsonMeans(members: seq<Entry<Json>>): (r: seq<Entry<Meaning>>)
    ensures |r| == |members|
  {
    seq(|members|, i requires 0 <= i < |members| => Entry(members[i].key, JsonMean(members[i].value)))
  }

  /** JSON without null, with distinct keys in every object. */
  predicate Clean(j: Json) {
    match j
    case Null => false
    case Object(members) => Distinct(members) && forall i :: 0 <= i < |members| ==> Clean(members[i].value)
    case Array(elements) => forall i :: 0 <= i < |elements| ==> Clean(elements[i])
    case _ => true
  }

  /** A dictionary as the program keeps it: distinct keys, ints of 32 bits. */
  predicate Proper(v: Value) {
    match v
    case Int(i) => -0x8000_0000 <= i < 0x8000_0000
    case Dict(entries) => Distinct(entries) && forall i :: 0 <= i < |entries| ==> Proper(entries[i].value)
    case Arr(items) => forall i :: 0 <= i < |items| ==> Proper(items[i])
    case _ => true
  }

  predicate HasArray(v: Value) {
    match v
    case Dict(entries) => exists i :: 0 <= i < |entries| && HasArray(entries[i].value)
    case Arr(_) => true
    case _ => false
  }

  // ----- unpacking clean JSON -----

  lemma MeansOfSet(entries: seq<Entry<Value>>, key: string, v: Value)
    ensures Means(Set(entries, key, v)) == Set(Means(entries), key, Mean(v))
  {
    SameFind(entries, key);
  }

  lemma {:induction false} SameFind(entries: seq<Entry<Value>>, key: string)
    ensures Find(Means(entries), key) == Find(entries, key)
  {
    if |entries| > 0 {
      assert Means(entries)[1..] == Means(entries[1..]);
      SameFind(entries[1..], key);
    }
  }

  lemma {:induction false} CleanUnpacks(j: Json)
    requires Clean(j)
    ensures UnpackValue(j).Ok? && Mean(UnpackValue(j).value) == JsonMean(j)
  {
    match j
    case Object(members) =>
      forall i | 0 <= i < |members|
        ensures UnpackValue(members[i].value).Ok?
        ensures Mean(UnpackValue(members[i].value).value) == JsonMean(members[i].value)
      {
        CleanUnpacks(members[i].value);
      }
      MembersUnpack(members);
    case Array(elements) =>
      forall i | 0 <= i < |elements|
        ensures UnpackValue(elements[i]).Ok? && Mean(UnpackValue(elements[i]).value) == JsonMean(elements[i])
      {
        CleanUnpacks(elements[i]);
      }
      ElementsUnpack(elements);
    case _ =>
  }

  lemma {:induction false} MembersUnpack(members: seq<Entry<Json>>)
    requires Distinct(members)
    requires forall i :: 0 <= i < |members| ==>
               UnpackValue(members[i].value).Ok?
               && Mean(UnpackValue(members[i].value).value) == JsonMean(members[i].value)
    ensures AsMap(Means(UnpackMembers(members))) == AsMap(JsonMeans(members))
    ensures Distinct(Means(UnpackMembers(members)))
  {
    if |members| > 0 {
      var front, last := members[..|members| - 1], members[|members| - 1];
      MembersUnpack(front);
      var v := UnpackValue(last.value).value;
      MeansOfSet(UnpackMembers(front), last.key, v);
      SetIsUpdate(Means(UnpackMembers(front)), last.key, Mean(v));
      assert JsonMeans(members)[..|members| - 1] == JsonMeans(front);
    }
  }

  lemma {:induction false} ElementsUnpack(elements: seq<Json>)
    requires forall i :: 0 <= i < |elements| ==>
               UnpackValue(elements[i]).Ok? && Mean(UnpackValue(elements[i]).value) == JsonMean(elements[i])
    ensures |UnpackElements(elements)| == |elements|
    ensures forall i :: 0 <= i < |elements| ==> Mean(UnpackElements(elements)[i]) == JsonMean(elements[i])
  {
    if |elements| > 0 {
      ElementsUnpack(elements[..|elements| - 1]);
    }
  }

  // ----- unpacking what has been packed -----

  /** What comes back: 64-bit integers as 32-bit ones, bools as 0 or 1. */
  function Normal(v: Value): Value {
    match v
    case Long(l) => Int(Wrap32(l))
    case Bool(b) => Bool(if b == 0 then 0 else 1)
    case Dict(entries) => Dict(Normals(entries))
    case _ => v
  }

  function Normals(entries: seq<Entry<Value>>): (r: seq<Entry<Value>>)
    ensures |r| == |entries|
  {
    seq(|entries|, i requires 0 <= i < |entries| => Entry(entries[i].key, Normal(entries[i].value)))
  }

  /** The packed members are the packed entries, one by one. */
  ghost predicate PacksEach(entries: seq<Entry<Value>>, members: seq<Entry<Json>>) {
    |members| == |entries|
    && forall i :: 0 <= i < |entries| ==>
         members[i].key == entries[i].key && PackValue(entries[i].value) == Some(members[i].value)
  }

  lemma {:induction false} EntriesPack(entries: seq<Entry<Value>>)
    requires Distinct(entries)
    ensures PackEntries(entries).Some? ==> PacksEach(entries, PackEntries(entries).value)
    ensures PackEntries(entries).None? <==> exists i :: 0 <= i < |entries| && PackValue(entries[i].value).None?
  {
    if |entries| > 0 {
      var front, last := entries[..|entries| - 1], entries[|entries| - 1];
      EntriesPack(front);
      if PackEntries(front).Some? {
        var members := PackEntries(front).value;
        assert forall i :: 0 <= i < |members| ==> members[i].key == entries[i].key;
        assert Find(members, last.key) == |members|;
      } else {
        var i :| 0 <= i < |front| && PackValue(front[i].value).None?;
        assert entries[i] == front[i];
      }
    }
  }

  /** Packing fails just for dictionaries that hold an array somewhere. */
  lemma {:induction false} PackFailsExactly(v: Value)
    requires Proper(v)
    ensures PackValue(v).None? <==> HasArray(v)
  {
    match v
    case Dict(entries) =>
      forall i | 0 <= i < |entries| ensures PackValue(entries[i].value).None? <==> HasArray(entries[i].value) {
        PackFailsExactly(entries[i].value);
      }
      EntriesPack(entries);
    case _ =>
  }

  lemma {:induction false} PackedMeans(v: Value)
    requires Proper(v) && PackValue(v).Some?
    ensures Clean(PackValue(v).value) && JsonMean(PackValue(v).value) == Mean(Normal(v))
  {
    match v
    case Dict(entries) =>
      EntriesPack(entries);
      var members := PackEntries(entries).value;
      forall i | 0 <= i < |entries|
        ensures Clean(members[i].value) && JsonMean(members[i].value) == Mean(Normal(entries[i].value))
      {
        PackedMeans(entries[i].value);
      }
      assert JsonMeans(members) == Means(Normals(entries));
    case _ =>
  }

  /** The JSON carries the value: integers of either width as they are, bools as being zero or not,
      dictionaries key by key. */
  ghost predicate Carries(j: Json, v: Value)
    decreases v
  {
    match v
    case Str(s) => j == String(s)
    case Int(i) => j == Integer(i)
    case Float(x) => j == Real(x)
    case Long(l) => j == Integer(l)
    case Bool(b) => (j == True || j == False) && (j == True <==> b != 0)
    case Dict(entries) =>
      j.Object? && Distinct(j.members) && Keys(entries) == Keys(j.members)
      && forall i, k :: 0 <= i < |entries| && 0 <= k < |j.members| && entries[i].key == j.members[k].key ==>
           Carries(j.members[k].value, entries[i].value)
    case Arr(_) => false
  }

  /** Packing loses nothing. */
  lemma {:induction false} PackCarries(v: Value)
    requires Proper(v) && PackValue(v).Some?
    ensures Carries(PackValue(v).value, v)
  {
    match v
    case Dict(entries) =>
      EntriesPack(entries);
      var members := PackEntries(entries).value;
      PackedKeys(entries, members);
      forall i, k | 0 <= i < |entries| && 0 <= k < |members| && entries[i].key == members[k].key
        ensures Carries(members[k].value, entries[i].value)
      {
        assert i == k;
        PackCarries(entries[i].value);
      }
    case _ =>
  }

  lemma PackedKeys(entries: seq<Entry<Value>>, members: seq<Entry<Json>>)
    requires Distinct(entries) && PacksEach(entries, members)
    ensures Distinct(members) && Keys(members) == Keys(entries)
  {
    forall key ensures key in Keys(members) <==> key in Keys(entries) {
      if i :| 0 <= i < |members| && members[i].key == key {
        assert entries[i].key == key;
      }
      if i :| 0 <= i < |entries| && entries[i].key == key {
        assert members[i].key == key;
      }
    }
  }

  function Keys<V>(entries: seq<Entry<V>>): set<string> {
    set i | 0 <= i < |entries| :: entries[i].key
  }

  /** JSON objects iterate in an order of their own: the same members in any order, at every level. */
  ghost predicate Reordered(j: Json, j': Json)
    decreases j
  {
    match j
    case Object(members) =>
      j'.Object? && Distinct(j'.members) && Keys(members) == Keys(j'.members)
      && (forall i, k :: 0 <= i < |members| && 0 <= k < |j'.members| && members[i].key == j'.members[k].key ==>
            Reordered(members[i].value, j'.members[k].value))
    case Array(elements) =>
      j'.Array? && |j'.elements| == |elements|
      && forall i :: 0 <= i < |elements| ==> Reordered(elements[i], j'.elements[i])
    case _ => j' == j
  }

  lemma {:induction false} ReorderedMeans(j: Json, j': Json)
    requires Clean(j) && Reordered(j, j')
    ensures Clean(j') && JsonMean(j') == JsonMean(j)
    decreases j
  {
    match j
    case Object(members) =>
      forall i, k | 0 <= i < |members| && 0 <= k < |j'.members| && members[i].key == j'.members[k].key
        ensures Clean(j'.members[k].value) && JsonMean(j'.members[k].value) == JsonMean(members[i].value)
      {
        ReorderedMeans(members[i].value, j'.members[k].value);
      }
      ReorderedMembers(members, j'.members);
    case Array(elements) =>
      forall i | 0 <= i < |elements| ensures Clean(j'.elements[i])
      ensures JsonMean(j'.elements[i]) == JsonMean(elements[i]) {
        ReorderedMeans(elements[i], j'.elements[i]);
      }
    case _ =>
  }

  /** Reordered members are clean, and mean the same map, when each of them is and does. */
  lemma ReorderedMembers(members: seq<Entry<Json>>, members': seq<Entry<Json>>)
    requires Distinct(members) && Distinct(members') && Keys(members) == Keys(members')
    requires forall i, k :: 0 <= i < |members| && 0 <= k < |members'| && members[i].key == members'[k].key ==>
               Clean(members'[k].value) && JsonMean(members'[k].value) == JsonMean(members[i].value)
    ensures forall k :: 0 <= k < |members'| ==> Clean(members'[k].value)
    ensures AsMap(JsonMeans(members')) == AsMap(JsonMeans(members))
  {
    forall k | 0 <= k < |members'| ensures Clean(members'[k].value) {
      assert members'[k].key in Keys(members);
      var i :| 0 <= i < |members| && members[i].key == members'[k].key;
    }
    assert forall ms: seq<Entry<Json>>, i :: 0 <= i < |ms| ==> JsonMeans(ms)[i].key == ms[i].key;
    assert Keys(JsonMeans(members)) == Keys(members);
    assert Keys(JsonMeans(members')) == Keys(members');
    SameMembers(JsonMeans(members), JsonMeans(members'));
  }

  lemma SameMembers<V>(a: seq<Entry<V>>, b: seq<Entry<V>>)
    requires Distinct(a) && Distinct(b) && Keys(a) == Keys(b)
    requires forall i, k :: 0 <= i < |a| && 0 <= k < |b| && a[i].key == b[k].key ==> a[i].value == b[k].value
    ensures AsMap(a) == AsMap(b)
  {
    forall key ensures Get(a, key) == Get(b, key) {
      var i, k := Find(a, key), Find(b, key);
      assert i < |a| <==> key in Keys(a);
      assert k < |b| <==> key in Keys(b);
    }
    forall key ensures Get(a, key) == Lookup(AsMap(b), key) {
      GetIsLookup(b, key);
    }
    GetsDecide(a, AsMap(b));
  }

  /** Whatever order the JSON library gives the members in, unpacking a packed dictionary gives the
      same map with its integers narrowed and its bools normalised. */
  lemma RoundTrip(v: Value, j: Json)
    requires Proper(v) && PackValue(v).Some? && Reordered(PackValue(v).value, j)
    ensures UnpackValue(j).Ok? && Mean(UnpackValue(j).value) == Mean(Normal(v))
  {
    PackedMeans(v);
    ReorderedMeans(PackValue(v).value, j);
    CleanUnpacks(j);
  }

  /** No 64-bit integers, and bools that are 0 or 1. */
  predicate Plain(v: Value) {
    match v
    case Long(_) => false
    case Bool(b) => b == 0 || b == 1
    case Dict(entries) => forall i :: 0 <= i < |entries| ==> Plain(entries[i].value)
    case _ => true
  }

  lemma {:induction false} NormalExactly(v: Value)
    requires Proper(v) && !HasArray(v)
    ensures Mean(Normal(v)) == Mean(v) <==> Plain(v)
  {
    match v
    case Dict(entries) =>
      forall i | 0 <= i < |entries|
        ensures Mean(Normal(entries[i].value)) == Mean(entries[i].value) <==> Plain(entries[i].value)
      {
        NormalExactly(entries[i].value);
      }
      if Plain(v) {
        assert Means(entries) == Means(Normals(entries));
      } else {
        var i :| 0 <= i < |entries| && !Plain(entries[i].value);
        DifferAt(Means(entries), Means(Normals(entries)), i);
      }
    case _ =>
  }

  lemma DifferAt<V>(a: seq<Entry<V>>, b: seq<Entry<V>>, i: nat)
    requires Distinct(a) && Distinct(b) && i < |a| && i < |b|
    requires a[i].key == b[i].key && a[i].value != b[i].value
    ensures AsMap(a) != AsMap(b)
  {
    AsMapHas(a);
    AsMapHas(b);
    assert AsMap(a)[a[i].key] != AsMap(b)[b[i].key];
  }

  /** A dictionary survives the round trip exactly when it holds no 64-bit integer and no bool other
      than 0 and 1. */
  lemma RoundTripExactly(v: Value, j: Json)
    requires Proper(v) && PackValue(v).Some? && Reordered(PackValue(v).value, j)
    ensures UnpackValue(j).Ok?
    ensures Mean(UnpackValue(j).value) == Mean(v) <==> Plain(v)
  {
    RoundTrip(v, j);
    PackFailsExactly(v);
    NormalExactly(v);
  }

  // ----- errors while unpacking -----

  /** Null comes last: as the value itself, or in its last member or element. */
  predicate EndsInNull(j: Json) {
    match j
    case Null => true
    case Object(members) => |members| > 0 && EndsInNull(members[|members| - 1].value)
    case Array(elements) => |elements| > 0 && EndsInNull(elements[|elements| - 1])
    case _ => false
  }

  /** Distinct keys in every object, as the JSON library has them. */
  predicate DistinctKeys(j: Json) {
    match j
    case Object(members) => Distinct(members) && forall i :: 0 <= i < |members| ==> DistinctKeys(members[i].value)
    case Array(elements) => forall i :: 0 <= i < |elements| ==> DistinctKeys(elements[i])
    case _ => true
  }

  /** Unpacking reports an error exactly when null comes last; any other null goes unreported. */
  lemma {:induction false} ErrorExactly(j: Json)
    ensures UnpackValue(j).Err? <==> EndsInNull(j)
  {
    match j
    case Object(members) =>
      if |members| > 0 {
        ErrorExactly(members[|members| - 1].value);
      }
    case Array(elements) =>
      if |elements| > 0 {
        ErrorExactly(elements[|elements| - 1]);
      }
    case _ =>
  }

  /** Each member is unpacked under its key, or left out when it cannot be. */
  lemma {:induction false} UnpackedMember(members: seq<Entry<Json>>, i: nat)
    requires Distinct(members) && i < |members|
    ensures Distinct(UnpackMembers(members))
    ensures Get(UnpackMembers(members), members[i].key)
         == match UnpackValue(members[i].value) case Ok(v) => Some(v) case Err(_) => None
  {
    var n := |members| - 1;
    var front, last := members[..n], members[n];
    assert i < n ==> front[i] == members[i];
    if i < n {
      UnpackedMember(front, i);
    } else {
      UnpackedOthers(front, last.key);
    }
    if UnpackValue(last.value).Ok? {
      GetAfterSet(UnpackMembers(front), last.key, UnpackValue(last.value).value, members[i].key);
    }
  }

  lemma {:induction false} UnpackedOthers(members: seq<Entry<Json>>, key: string)
    requires Distinct(members) && forall i :: 0 <= i < |members| ==> members[i].key != key
    ensures Distinct(UnpackMembers(members)) && Get(UnpackMembers(members), key) == None
  {
    if |members| > 0 {
      var front, last := members[..|members| - 1], members[|members| - 1];
      UnpackedOthers(front, key);
      if UnpackValue(last.value).Ok? {
        GetAfterSet(UnpackMembers(front), last.key, UnpackValue(last.value).value, key);
      }
    }
  }

  /** Of the elements of an array, those that do not end in null are kept, in their order: the k-th value
      kept is that of element at[k]. */
  lemma {:induction false} UnpackedElements(elements: seq<Json>) returns (at: seq<nat>)
    ensures |at| == |UnpackElements(elements)|
    ensures forall k :: 0 <= k < |at| ==>
              at[k] < |elements| && UnpackValue(elements[at[k]]) == Ok(UnpackElements(elements)[k])
    ensures forall j, k :: 0 <= j < k < |at| ==> at[j] < at[k]
    ensures forall i: nat :: i < |elements| ==> (i in at <==> !EndsInNull(elements[i]))
  {
    if |elements| == 0 {
      at := [];
    } else {
      var n := |elements| - 1;
      at := UnpackedElements(elements[..n]);
      ErrorExactly(elements[n]);
      if !EndsInNull(elements[n]) {
        at := at + [n];
      }
      forall i: nat | i < |elements| ensures i in at <==> !EndsInNull(elements[i]) {
        assert i < n ==> elements[..n][i] == elements[i];
      }
    }
  }

  ghost predicate IsEntryOf(members: seq<Entry<Json>>, i: nat, e: Entry<Value>) {
    i < |members| && e.key == members[i].key && UnpackValue(members[i].value) == Ok(e.value)
  }

  /** The last member is put last, if it can be unpacked. */
  lemma UnpackedLast(members: seq<Entry<Json>>, n: nat)
    requires Distinct(members) && |members| == n + 1
    ensures var before, after := UnpackMembers(members[..n]), UnpackMembers(members);
            if EndsInNull(members[n].value) then after == before
            else |after| == |before| + 1 && after[..|before|] == before && IsEntryOf(members, n, after[|before|])
  {
    ErrorExactly(members[n].value);
    UnpackedOthers(members[..n], members[n].key);
  }

  /** Of the members of an object, those that do not end in null become the entries of the dictionary, in
      their order: the k-th entry is member at[k]. */
  lemma {:induction false} UnpackedInOrder(members: seq<Entry<Json>>) returns (at: seq<nat>)
    requires Distinct(members)
    ensures |at| == |UnpackMembers(members)|
    ensures forall k :: 0 <= k < |at| ==> IsEntryOf(members, at[k], UnpackMembers(members)[k])
    ensures forall j, k :: 0 <= j < k < |at| ==> at[j] < at[k]
    ensures forall i: nat :: i < |members| ==> (i in at <==> !EndsInNull(members[i].value))
  {
    if |members| == 0 {
      at := [];
    } else {
      var n := |members| - 1;
      at := UnpackedInOrder(members[..n]);
      UnpackedLast(members, n);
      var before, after := UnpackMembers(members[..n]), UnpackMembers(members);
      forall k | 0 <= k < |at| ensures IsEntryOf(members, at[k], after[k]) && at[k] < n {
        assert IsEntryOf(members[..n], at[k], before[k]);
        assert after[k] == before[k];
      }
      if !EndsInNull(members[n].value) {
        at := at + [n];
      }
      forall i: nat | i < |members| ensures i in at <==> !EndsInNull(members[i].value) {
        assert i < n ==> members[..n][i] == members[i];
      }
    }
  }

  /** Of an object whose last member does not end in null, exactly the members that end in null are
      left out, without an error. */
  lemma OnlyLastErrorCounts(members: seq<Entry<Json>>, i: nat)
    requires Distinct(members) && i < |members| && !EndsInNull(members[|members| - 1].value)
    ensures var r := UnpackValue(Object(members));
            r.Ok? && (Get(r.value.entries, members[i].key) == None <==> EndsInNull(members[i].value))
  {
    ErrorExactly(members[|members| - 1].value);
    ErrorExactly(members[i].value);
    UnpackedMember(members, i);
  }

  /** Unpacking succeeds and keeps the whole meaning. */
  ghost predicate Keeps(j: Json) {
    UnpackValue(j).Ok? && Mean(UnpackValue(j).value) == JsonMean(j)
  }

  lemma LostMember(members: seq<Entry<Json>>, i: nat)
    requires Distinct(members) && i < |members| && !Keeps(members[i].value)
    ensures !Keeps(Object(members))
  {
    UnpackedMember(members, i);
    var key, entries := members[i].key, UnpackMembers(members);
    var means := Means(entries);
    SameFind(entries, key);
    GetIsLookup(means, key);
    AsMapHas(JsonMeans(members));
    assert JsonMeans(members)[i].key == key;
  }

  lemma {:induction false} FewerElements(elements: seq<Json>)
    ensures |UnpackElements(elements)| <= |elements|
    ensures |UnpackElements(elements)| == |elements| ==>
              forall i :: 0 <= i < |elements| ==> UnpackValue(elements[i]) == Ok(UnpackElements(elements)[i])
  {
    if |elements| > 0 {
      FewerElements(elements[..|elements| - 1]);
    }
  }

  lemma LostElement(elements: seq<Json>, i: nat)
    requires i < |elements| && !Keeps(elements[i])
    ensures !Keeps(Array(elements))
  {
    FewerElements(elements);
    if |UnpackElements(elements)| == |elements| {
      var items := UnpackElements(elements);
      assert UnpackValue(elements[i]) == Ok(items[i]);
      assert Mean(Arr(items)).items[i] == Mean(items[i]);
      assert JsonMean(Array(elements)).items[i] == JsonMean(elements[i]);
    }
  }

  /** Nothing is lost in unpacking exactly when there is no null anywhere. */
  lemma {:induction false} NothingLostExactly(j: Json)
    requires DistinctKeys(j)
    ensures Keeps(j) <==> Clean(j)
  {
    if Clean(j) {
      CleanUnpacks(j);
    } else {
      match j
      case Object(members) =>
        var i :| 0 <= i < |members| && !Clean(members[i].value);
        NothingLostExactly(members[i].value);
        LostMember(members, i);
      case Array(elements) =>
        var i :| 0 <= i < |elements| && !Clean(elements[i]);
        NothingLostExactly(elements[i]);
        LostElement(elements, i);
      case _ =>
    }
  }

  /** A null that is not the last member goes unnoticed. */
  lemma NullIsDropped()
    ensures UnpackValue(Object([Entry("a", Null), Entry("b", True)])) == Ok(Dict([Entry("b", Bool(1))]))
  {
    var members := [Entry("a", Null), Entry("b", True)];
    assert members[..1] == [Entry("a", Null)];
    assert members[..1][..0] == [];
    assert UnpackMembers(members[..1]) == [];
    assert UnpackMembers(members) == Set([], "b", Bool(1));
    assert Set<Value>([], "b", Bool(1)) == [Entry("b", Bool(1))];
  }

  // ----- packing and unpacking as the program does it -----

  /** jsonPackDictionary */
  method PackDictionary(entries: seq<Entry<Value>>) returns (r: Result<seq<Entry<Json>>>)
    ensures r == match PackEntries(entries)
                 case Some(members) => Ok(members)
                 case None => Err(OOI_DICT_TYPE_NOT_SUPPORTED)
    ensures Proper(Dict(entries)) ==> (r.Err? <==> HasArray(Dict(entries)))
    ensures Proper(Dict(entries)) && r.Ok? ==> Carries(Object(r.value), Dict(entries))
    decreases entries
  {
    PackedOrNot(Dict(entries));
    var paramObj: seq<Entry<Json>> := [];
    var i := 0;
    while i < |entries|
      invariant 0 <= i <= |entries| && PackEntries(entries[..i]) == Some(paramObj)
    {
      NextEntry(entries, i);
      var packed := PackOne(entries[i].value);
      if packed.Err? {
        return Err(packed.error);
      }
      paramObj := Set(paramObj, entries[i].key, packed.value);
      i := i + 1;
    }
    assert entries[..i] == entries;
    r := Ok(paramObj);
  }

  lemma PackedOrNot(v: Value)
    ensures Proper(v) ==> (PackValue(v).None? <==> HasArray(v))
    ensures Proper(v) && PackValue(v).Some? ==> Carries(PackValue(v).value, v)
  {
    if Proper(v) {
      PackFailsExactly(v);
      if PackValue(v).Some? {
        PackCarries(v);
      }
    }
  }

  method PackOne(v: Value) returns (r: Result<Json>)
    ensures r == match PackValue(v) case Some(j) => Ok(j) case None => Err(OOI_DICT_TYPE_NOT_SUPPORTED)
    decreases v
  {
    match v
    case Str(s) => r := Ok(String(s));
    case Int(n) => r := Ok(Integer(n));
    case Float(x) => r := Ok(Real(x));
    case Long(n) => r := Ok(Integer(n));
    case Bool(b) => r := Ok(if b == 0 then False else True);
    case Dict(nested) =>
      var members := PackDictionary(nested);
      if members.Err? {
        return Err(members.error);
      }
      r := Ok(Object(members.value));
    case Arr(_) => r := Err(OOI_DICT_TYPE_NOT_SUPPORTED);
  }

  /** Packing up to entry i fails for good when it fails for the entry. */
  lemma {:induction false} PackStops(entries: seq<Entry<Value>>, i: nat)
    requires i <= |entries| && PackEntries(entries[..i]).None?
    ensures PackEntries(entries).None?
    decreases |entries| - i
  {
    if i < |entries| {
      assert entries[..i + 1][..i] == entries[..i];
      PackStops(entries, i + 1);
    } else {
      assert entries[..i] == entries;
    }
  }

  lemma NextEntry(entries: seq<Entry<Value>>, i: nat)
    requires i < |entries| && PackEntries(entries[..i]).Some?
    ensures PackValue(entries[i].value).None? ==> PackEntries(entries).None?
    ensures PackValue(entries[i].value).Some? ==>
              PackEntries(entries[..i + 1])
              == Some(Set(PackEntries(entries[..i]).value, entries[i].key, PackValue(entries[i].value).value))
  {
    assert entries[..i + 1][..i] == entries[..i];
    if PackValue(entries[i].value).None? {
      PackStops(entries, i + 1);
    }
  }

  /** jsonUnpackDict; status is that of the member unpacked last. */
  method UnpackDict(members: seq<Entry<Json>>, growth: nat) returns (r: Result<Attributes>)
    requires growth > 0
    ensures UnpackValue(Object(members)).Ok? <==> r.Ok?
    ensures r.Err? ==> r.error == OOI_JSON_TYPE_ERR
    ensures r.Ok? ==> fresh(r.value) && r.value.Valid() && Dict(r.value.Entries) == UnpackValue(Object(members)).value
    decreases members
  {
    var outDict := new Attributes(growth);
    var ok := true;
    var i := 0;
    while i < |members|
      invariant 0 <= i <= |members| && outDict.Valid() && fresh(outDict)
      invariant fresh({outDict.key} - {null}) && fresh({outDict.value} - {null})
      invariant outDict.Entries == UnpackMembers(members[..i])
      invariant ok <==> i == 0 || UnpackValue(members[i - 1].value).Ok?
    {
      assert members[..i + 1][..i] == members[..i];
      var v := UnpackOne(members[i].value, growth);
      ok := v.Ok?;
      if v.Ok? {
        outDict.SetAttr(members[i].key, v.value);
      }
      i := i + 1;
    }
    assert members[..i] == members;
    r := if ok then Ok(outDict) else Err(OOI_JSON_TYPE_ERR);
  }

  method UnpackOne(j: Json, growth: nat) returns (r: Result<Value>)
    requires growth > 0
    ensures r == UnpackValue(j)
    decreases j
  {
    match j
    case Object(members) =>
      var tmpDict := UnpackDict(members, growth);
      if tmpDict.Err? {
        return Err(tmpDict.error);
      }
      var entries := tmpDict.value.Snapshot();
      r := Ok(Dict(entries));
    case Array(elements) =>
      r := UnpackArray(elements, growth);
    case String(s) => r := Ok(Str(s));
    case Integer(i) => r := Ok(Int(Wrap32(i)));
    case Real(x) => r := Ok(Float(x));
    case True => r := Ok(Bool(1));
    case False => r := Ok(Bool(0));
    case Null => r := Err(OOI_JSON_TYPE_ERR);
  }

  /** jsonUnpackArray */
  method UnpackArray(elements: seq<Json>, growth: nat) returns (r: Result<Value>)
    requires growth > 0
    ensures r == UnpackValue(Array(elements))
    decreases elements
  {
    var genArray: seq<Value> := [];
    var ok := true;
    var i := 0;
    while i < |elements|
      invariant 0 <= i <= |elements| && genArray == UnpackElements(elements[..i])
      invariant ok <==> i == 0 || UnpackValue(elements[i - 1]).Ok?
    {
      assert elements[..i + 1][..i] == elements[..i];
      var v := UnpackOne(elements[i], growth);
      ok := v.Ok?;
      if v.Ok? {
        genArray := genArray + [v.value];
      }
      i := i + 1;
    }
    assert elements[..i] == elements;
    r := if ok then Ok(Arr(genArray)) else Err(OOI_JSON_TYPE_ERR);
  }
}
