/**
 Normalizing decoded JSON before two files are compared: keys are renamed and
 some values replaced, at every depth, and keys can be left out.

 An object is a list of fields in insertion order. Assigning a key that exists
 replaces its value in place.
 */
module JsonData {
  import opened Wrappers

  datatype Json =
    | Null
    | Bool(b: bool)
    | Num(n: int)
    | NotANumber
    | Str(s: string)
    | Arr(items: seq<Json>)
    | Obj(fields: seq<Field>)

  datatype Field = Field(key: string, value: Json)

  predicate IsScalar(x: Json) {
    !x.Arr? && !x.Obj?
  }

  predicate DistinctKeys(fields: seq<Field>) {
    forall i, j :: 0 <= i < j < |fields| ==> fields[i].key != fields[j].key
  }

  /** Objects in JavaScript have distinct keys, at every depth. */
  predicate WellFormed(x: Json) {
    match x
    case Arr(items) => forall i :: 0 <= i < |items| ==> WellFormed(items[i])
    case Obj(fields) => DistinctKeys(fields) && forall i :: 0 <= i < |fields| ==> WellFormed(fields[i].value)
    case _ => true
  }

  predicate HasKey(fields: seq<Field>, key: string) {
    exists i :: 0 <= i < |fields| && fields[i].key == key
  }

  function Replace(fields: seq<Field>, key: string, value: Json): (r: seq<Field>)
    ensures |r| == |fields|
    ensures forall i :: 0 <= i < |r| ==> r[i] == if fields[i].key == key then Field(key, value) else fields[i]
  {
    if fields == [] then []
    else
      var front, last := fields[..|fields| - 1], fields[|fields| - 1];
      Replace(front, key, value) + [if last.key == key then Field(key, value) else last]
  }

  /** obj[key] = value */
  function Assign(fields: seq<Field>, key: string, value: Json): seq<Field> {
    if HasKey(fields, key) then Replace(fields, key, value) else fields + [Field(key, value)]
  }

  /** The value of a property, when the object has it. */
  function Property(fields: seq<Field>, key: string): Option<Json> {
    if fields == [] then None
    else if fields[|fields| - 1].key == key then Some(fields[|fields| - 1].value)
    else Property(fields[..|fields| - 1], key)
  }

  /** A key that exists keeps its place, and a new one comes last. */
  lemma AssignedPlaces(fields: seq<Field>, key: string, value: Json)
    requires DistinctKeys(fields)
    ensures var r := Assign(fields, key, value);
            && (forall i :: 0 <= i < |fields| ==> r[i] == if fields[i].key == key then Field(key, value) else fields[i])
            && (if exists i :: 0 <= i < |fields| && fields[i].key == key then |r| == |fields|
                else r == fields + [Field(key, value)])
  {
  }

  /** What a callback does with a value: keep it, put a scalar in its place, or throw. */
  datatype Replacement = Keep | With(scalar: Json) | Throws

  datatype Callback = Callback(rename: string -> string, replace: (string, Json) -> Replacement)

  /** None stands for an exception thrown by the callback. */
  function Traverse(cb: Callback, x: Json): Option<Json>
    decreases x, 1
  {
    match x
    case Arr(items) =>
      var r := TraverseItems(cb, items);
      if r.None? then None else Some(Arr(r.value))
    case Obj(fields) =>
      var r := TraverseFields(cb, fields);
      if r.None? then None else Some(Obj(r.value))
    case _ => Some(x)
  }

  function TraverseItems(cb: Callback, items: seq<Json>): (r: Option<seq<Json>>)
    ensures r.Some? ==> |r.value| == |items|
    decreases items, 0
  {
    if items == [] then Some([])
    else
      var front := TraverseItems(cb, items[..|items| - 1]);
      var last := Traverse(cb, items[|items| - 1]);
      if front.None? || last.None? then None else Some(front.value + [last.value])
  }

  /** The new value of a field. */
  function NewValue(cb: Callback, f: Field): Option<Json>
    decreases f, 2
  {
    match cb.replace(f.key, f.value)
    case Throws => None
    case With(scalar) => Some(scalar)
    case Keep => Traverse(cb, f.value)
  }

  function TraverseFields(cb: Callback, fields: seq<Field>): Option<seq<Field>>
    decreases fields, 3
  {
    if fields == [] then Some([])
    else
      var last := fields[|fields| - 1];
      var front := TraverseFields(cb, fields[..|fields| - 1]);
      var value := NewValue(cb, last);
      if front.None? || value.None? then None else Some(Assign(front.value, cb.rename(last.key), value.value))
  }

  lemma {:induction false} TraverseItemsPrefix(cb: Callback, items: seq<Json>, i: nat)
    requires i <= |items| && TraverseItems(cb, items[..i]).None?
    ensures TraverseItems(cb, items).None?
  {
    if i < |items| {
      assert items[..|items| - 1][..i] == items[..i];
      TraverseItemsPrefix(cb, items[..|items| - 1], i);
    } else {
      assert items[..i] == items;
    }
  }

  lemma {:induction false} TraverseFieldsPrefix(cb: Callback, fields: seq<Field>, i: nat)
    requires i <= |fields| && TraverseFields(cb, fields[..i]).None?
    ensures TraverseFields(cb, fields).None?
  {
    if i < |fields| {
      assert fields[..|fields| - 1][..i] == fields[..i];
      TraverseFieldsPrefix(cb, fields[..|fields| - 1], i);
    } else {
      assert fields[..i] == fields;
    }
  }

  lemma OneMoreItem(cb: Callback, items: seq<Json>, i: nat)
    requires i < |items| && TraverseItems(cb, items[..i]).Some?
    ensures var item := Traverse(cb, items[i]);
            if item.None? then TraverseItems(cb, items).None?
            else TraverseItems(cb, items[..i + 1]) == Some(TraverseItems(cb, items[..i]).value + [item.value])
  {
    assert items[..i + 1][..i] == items[..i];
    if Traverse(cb, items[i]).None? {
      TraverseItemsPrefix(cb, items, i + 1);
    }
  }

  lemma OneMoreField(cb: Callback, fields: seq<Field>, i: nat)
    requires i < |fields| && TraverseFields(cb, fields[..i]).Some?
    ensures var value := NewValue(cb, fields[i]);
            if value.None? then TraverseFields(cb, fields).None?
            else
              TraverseFields(cb, fields[..i + 1])
              == Some(Assign(TraverseFields(cb, fields[..i]).value, cb.rename(fields[i].key), value.value))
  {
    assert fields[..i + 1][..i] == fields[..i];
    if NewValue(cb, fields[i]).None? {
      TraverseFieldsPrefix(cb, fields, i + 1);
    }
  }

  /** deepTraverse, which fills the new array or object in a loop. */
  method DeepTraverse(obj: Json, cb: Callback) returns (r: Option<Json>)
    ensures r == Traverse(cb, obj)
    decreases obj
  {
    match obj
    case Arr(items) =>
      var newItems: seq<Json> := [];
      for i := 0 to |items|
        invariant TraverseItems(cb, items[..i]) == Some(newItems)
      {
        var item := DeepTraverse(items[i], cb);
        OneMoreItem(cb, items, i);
        if item.None? {
          return None;
        }
        newItems := newItems + [item.value];
      }
      assert items[..|items|] == items;
      r := Some(Arr(newItems));
    case Obj(fields) =>
      var newObj: seq<Field> := [];
      for i := 0 to |fields|
        invariant TraverseFields(cb, fields[..i]) == Some(newObj)
      {
        var key, value := fields[i].key, fields[i].value;
        OneMoreField(cb, fields, i);
        var newValue: Option<Json>;
        match cb.replace(key, value) {
          case Throws => newValue := None;
          case With(scalar) => newValue := Some(scalar);
          case Keep => newValue := DeepTraverse(value, cb);
        }
        assert newValue == NewValue(cb, fields[i]);
        if newValue.None? {
          return None;
        }
        newObj := Assign(newObj, cb.rename(key), newValue.value);
      }
      assert fields[..|fields|] == fields;
      r := Some(Obj(newObj));
    case _ =>
      r := Some(obj);
  }

  // ----- Doing it twice -----

  /** A callback leaves alone what it has produced. */
  ghost predicate Settles(cb: Callback) {
    && (forall k :: cb.rename(cb.rename(k)) == cb.rename(k))
    && (forall k, x :: cb.replace(k, x).With? ==>
          IsScalar(cb.replace(k, x).scalar) && cb.replace(cb.rename(k), cb.replace(k, x).scalar) == Keep)
    && (forall k, x :: cb.replace(k, x) == Keep && Traverse(cb, x).Some? ==>
          cb.replace(cb.rename(k), Traverse(cb, x).value) == Keep)
  }

  ghost predicate Settled(cb: Callback, f: Field) {
    cb.rename(f.key) == f.key && cb.replace(f.key, f.value) == Keep && Traverse(cb, f.value) == Some(f.value)
  }

  lemma AssignKeepsSettled(cb: Callback, fields: seq<Field>, key: string, value: Json)
    requires DistinctKeys(fields) && forall i :: 0 <= i < |fields| ==> Settled(cb, fields[i])
    requires Settled(cb, Field(key, value))
    ensures var r := Assign(fields, key, value);
            DistinctKeys(r) && forall i :: 0 <= i < |r| ==> Settled(cb, r[i])
  {
    var r := Assign(fields, key, value);
    forall i, j | 0 <= i < j < |r|
      ensures r[i].key != r[j].key
    {
      assert j < |fields| ==> fields[i].key != fields[j].key;
    }
  }

  lemma {:induction false} SettledFieldsStay(cb: Callback, fields: seq<Field>)
    requires DistinctKeys(fields) && forall i :: 0 <= i < |fields| ==> Settled(cb, fields[i])
    ensures TraverseFields(cb, fields) == Some(fields)
  {
    if fields != [] {
      var front, last := fields[..|fields| - 1], fields[|fields| - 1];
      SettledFieldsStay(cb, front);
      assert Settled(cb, last);
      assert !HasKey(front, last.key);
      assert front + [last] == fields;
    }
  }

  lemma {:induction false} TraverseIsIdempotent(cb: Callback, x: Json)
    requires Settles(cb)
    ensures var y := Traverse(cb, x); y.Some? ==> Traverse(cb, y.value) == y
    decreases x, 1
  {
    match x
    case Arr(items) => TraverseItemsIdempotent(cb, items);
    case Obj(fields) =>
      TraverseFieldsSettle(cb, fields);
      var r := TraverseFields(cb, fields);
      if r.Some? {
        SettledFieldsStay(cb, r.value);
      }
    case _ =>
  }

  lemma {:induction false} TraverseItemsIdempotent(cb: Callback, items: seq<Json>)
    requires Settles(cb)
    ensures var r := TraverseItems(cb, items); r.Some? ==> TraverseItems(cb, r.value) == r
    decreases items, 0
  {
    if items != [] {
      var front, last := items[..|items| - 1], items[|items| - 1];
      TraverseItemsIdempotent(cb, front);
      TraverseIsIdempotent(cb, last);
      var r := TraverseItems(cb, items);
      if r.Some? {
        assert r.value[..|r.value| - 1] == TraverseItems(cb, front).value;
      }
    }
  }

  lemma {:induction false} TraverseFieldsSettle(cb: Callback, fields: seq<Field>)
    requires Settles(cb)
    ensures var r := TraverseFields(cb, fields);
            r.Some? ==> DistinctKeys(r.value) && forall i :: 0 <= i < |r.value| ==> Settled(cb, r.value[i])
    decreases fields, 0
  {
    if fields != [] {
      var front, last := fields[..|fields| - 1], fields[|fields| - 1];
      TraverseFieldsSettle(cb, front);
      TraverseIsIdempotent(cb, last.value);
      var r, value := TraverseFields(cb, fields), NewValue(cb, last);
      if r.Some? {
        assert Settled(cb, Field(cb.rename(last.key), value.value));
        AssignKeepsSettled(cb, TraverseFields(cb, front).value, cb.rename(last.key), value.value);
      }
    }
  }

  // ----- The three normalizers -----

  function Unchanged(key: string): string {
    key
  }

  function KeepValue(key: string, value: Json): Replacement {
    Keep
  }

  const EXCHANGE_RATE_KEYS: map<string, string> := map["hbarEquiv" := "hbars", "centEquiv" := "cents"]

  /**
   `keyMappings[key] || key`. An object literal also answers for the names it inherits
   ("constructor", "toString", "__proto__" and others); the inherited value then serves
   as a key by its text. `inherited` maps these names to these texts.
   */
  function Mapped(keyMappings: map<string, string>, inherited: Prototype, key: string): string {
    if key in keyMappings then keyMappings[key]
    else if key in inherited then inherited[key]
    else key
  }

  /** The inherited names and texts are no words of the files, and no text is a name. */
  type Prototype = inherited: map<string, string> |
    inherited.Keys !! inherited.Values && (inherited.Keys + inherited.Values) !! WORDS
    witness map[]

  ghost const WORDS: set<string> :=
    FEE_KEYS.Keys + FEE_KEYS.Values + EXCHANGE_RATE_KEYS.Keys + EXCHANGE_RATE_KEYS.Values
    + {"expirationTime", "seconds"}

  predicate IsTruthy(x: Json) {
    match x
    case Null => false
    case Bool(b) => b
    case Num(n) => n != 0
    case NotANumber => false
    case Str(s) => s != ""
    case _ => true
  }

  /**
   An expiration time with seconds becomes an ISO date. `iso` converts the seconds,
   or fails on a time value out of range. Reading a property of null throws.
   */
  function ExpirationDate(iso: Json -> Option<string>, key: string, value: Json): Replacement {
    if key != "expirationTime" then Keep
    else if value.Null? then Throws
    else if !value.Obj? then Keep
    else
      var seconds := Property(value.fields, "seconds");
      if seconds.None? || !IsTruthy(seconds.value) then Keep
      else
        var date := iso(seconds.value);
        if date.None? then Throws else With(Str(date.value))
  }

  function ExchangeRates(inherited: Prototype, iso: Json -> Option<string>): Callback {
    Callback(key => Mapped(EXCHANGE_RATE_KEYS, inherited, key), (key, value) => ExpirationDate(iso, key, value))
  }

  /** `parse` is parseInt with radix 10. */
  function ThrottleNumber(parse: string -> Option<int>, key: string, value: Json): Replacement {
    if (key == "milliOpsPerSec" || key == "burstPeriodMs") && value.Str? then
      var n := parse(value.s);
      With(if n.Some? then Num(n.value) else NotANumber)
    else Keep
  }

  function Throttles(parse: string -> Option<int>): Callback {
    Callback(Unchanged, (key, value) => ThrottleNumber(parse, key, value))
  }

  const FEE_KEYS: map<string, string> := map[
    "currentFeeSchedule" := "current",
    "subType" := "feeDataType",
    "bpt" := "transactionBandwidthByte",
    "vpt" := "transactionVerification",
    "rbh" := "transactionRamByteHour",
    "sbh" := "transactionStorageByteHour",
    "gas" := "contractTransactionGas",
    "tv" := "transferVolumeHbar",
    "bpr" := "responseMemoryByte",
    "sbpr" := "responseDiskByte",
    "nextFeeSchedule" := "next",
    "expiryTime" := "expirationTime"
  ]

  function FeeKey(inherited: Prototype): string -> string {
    key => Mapped(FEE_KEYS, inherited, key)
  }

  function Renaming(m: string -> string): Callback {
    Callback(m, KeepValue)
  }

  lemma MappedKeysSettle(keyMappings: map<string, string>, inherited: Prototype, key: string)
    requires keyMappings.Keys + keyMappings.Values <= WORDS && keyMappings.Keys !! keyMappings.Values
    ensures var mapped := Mapped(keyMappings, inherited, key); Mapped(keyMappings, inherited, mapped) == mapped
  {
    var mapped := Mapped(keyMappings, inherited, key);
    if key in keyMappings {
      assert mapped in keyMappings.Values;
    } else if key in inherited {
      assert mapped in inherited.Values;
    }
  }

  /** Only a word that is no key of the mapping and no value of it is the image of itself alone. */
  lemma MappedToWord(keyMappings: map<string, string>, inherited: Prototype, key: string, word: string)
    requires word in WORDS
    requires word !in keyMappings.Keys && word !in keyMappings.Values
    ensures Mapped(keyMappings, inherited, key) == word <==> key == word
  {
    if key in keyMappings {
      assert Mapped(keyMappings, inherited, key) in keyMappings.Values;
    } else if key in inherited {
      assert Mapped(keyMappings, inherited, key) in inherited.Values;
    }
  }

  lemma FeeKeysAreRenamedOnce()
    ensures FEE_KEYS.Keys !! FEE_KEYS.Values
  {
  }

  lemma ExchangeRateKeysAreRenamedOnce()
    ensures EXCHANGE_RATE_KEYS.Keys !! EXCHANGE_RATE_KEYS.Values
    ensures forall word :: word in {"expirationTime", "seconds"} ==>
              word !in EXCHANGE_RATE_KEYS.Keys && word !in EXCHANGE_RATE_KEYS.Values
  {
  }

  lemma {:induction false} HasKeyMeansProperty(fields: seq<Field>, key: string)
    ensures HasKey(fields, key) <==> Property(fields, key).Some?
  {
    if fields != [] {
      var front, last := fields[..|fields| - 1], fields[|fields| - 1];
      HasKeyMeansProperty(front, key);
      AddedKey(front, last, key);
      assert front + [last] == fields;
    }
  }

  lemma PropertyOfAssign(fields: seq<Field>, key: string, value: Json, name: string)
    ensures Property(Assign(fields, key, value), name) == if name == key then Some(value) else Property(fields, name)
  {
    HasKeyMeansProperty(fields, key);
    if HasKey(fields, key) {
      PropertyOfReplace(fields, key, value, name);
    }
  }

  lemma {:induction false} PropertyOfReplace(fields: seq<Field>, key: string, value: Json, name: string)
    ensures var was := Property(fields, name);
            Property(Replace(fields, key, value), name) == if name == key && was.Some? then Some(value) else was
  {
    if fields != [] {
      var front := fields[..|fields| - 1];
      PropertyOfReplace(front, key, value, name);
      var r := Replace(fields, key, value);
      assert r[..|r| - 1] == Replace(front, key, value);
    }
  }

  /** A name that only it maps to, and whose values are kept, still names what it named. */
  lemma {:induction false} PropertySurvives(cb: Callback, fields: seq<Field>, name: string)
    requires forall k :: cb.rename(k) == name <==> k == name
    requires forall x :: cb.replace(name, x) == Keep
    requires TraverseFields(cb, fields).Some?
    ensures var before, after := Property(fields, name), Property(TraverseFields(cb, fields).value, name);
            if before.None? then after.None? else after.Some? && after == Traverse(cb, before.value)
  {
    if fields != [] {
      var front, last := fields[..|fields| - 1], fields[|fields| - 1];
      PropertySurvives(cb, front, name);
      PropertyOfAssign(TraverseFields(cb, front).value, cb.rename(last.key), NewValue(cb, last).value, name);
    }
  }

  lemma ExchangeRateNames(inherited: Prototype, key: string)
    ensures var mapped := Mapped(EXCHANGE_RATE_KEYS, inherited, key);
            && Mapped(EXCHANGE_RATE_KEYS, inherited, mapped) == mapped
            && (mapped == "expirationTime" <==> key == "expirationTime")
            && (mapped == "seconds" <==> key == "seconds")
  {
    ExchangeRateKeysAreRenamedOnce();
    MappedKeysSettle(EXCHANGE_RATE_KEYS, inherited, key);
    MappedToWord(EXCHANGE_RATE_KEYS, inherited, key, "expirationTime");
    MappedToWord(EXCHANGE_RATE_KEYS, inherited, key, "seconds");
  }

  lemma ExpirationStays(inherited: Prototype, iso: Json -> Option<string>, key: string, x: Json)
    requires ExpirationDate(iso, key, x) == Keep
    ensures var y := Traverse(ExchangeRates(inherited, iso), x);
            y.Some? ==> ExpirationDate(iso, Mapped(EXCHANGE_RATE_KEYS, inherited, key), y.value) == Keep
  {
    var cb := ExchangeRates(inherited, iso);
    ExchangeRateNames(inherited, key);
    if key == "expirationTime" && x.Obj? && Traverse(cb, x).Some? {
      forall k
        ensures cb.rename(k) == "seconds" <==> k == "seconds"
      {
        ExchangeRateNames(inherited, k);
      }
      PropertySurvives(cb, x.fields, "seconds");
    }
  }

  lemma ExchangeRatesSettle(inherited: Prototype, iso: Json -> Option<string>)
    ensures Settles(ExchangeRates(inherited, iso))
  {
    var cb := ExchangeRates(inherited, iso);
    forall k
      ensures cb.rename(cb.rename(k)) == cb.rename(k)
      ensures cb.rename(k) == "expirationTime" <==> k == "expirationTime"
    {
      ExchangeRateNames(inherited, k);
    }
    forall k, x | cb.replace(k, x) == Keep && Traverse(cb, x).Some?
      ensures cb.replace(cb.rename(k), Traverse(cb, x).value) == Keep
    {
      ExpirationStays(inherited, iso, k, x);
    }
  }

  lemma ThrottlesSettle(parse: string -> Option<int>)
    ensures Settles(Throttles(parse))
  {
    var cb := Throttles(parse);
    forall k, x | cb.replace(k, x) == Keep
      ensures Traverse(cb, x).Some? ==> cb.replace(cb.rename(k), Traverse(cb, x).value) == Keep
    {
      assert ThrottleNumber(parse, k, x) == Keep;
    }
  }

  lemma RenamingSettles(m: string -> string)
    requires forall k :: m(m(k)) == m(k)
    ensures Settles(Renaming(m))
  {
  }

  ghost predicate SecondTimeChangesNothing(cb: Callback, x: Json) {
    var y := Traverse(cb, x);
    y.Some? ==> Traverse(cb, y.value) == y
  }

  /** Each of the three normalizers changes nothing the second time, on every document. */
  lemma NormalizersAreIdempotent(
    inherited: Prototype, iso: Json -> Option<string>, parse: string -> Option<int>, x: Json)
    ensures SecondTimeChangesNothing(ExchangeRates(inherited, iso), x)
    ensures SecondTimeChangesNothing(Throttles(parse), x)
    ensures SecondTimeChangesNothing(Renaming(FeeKey(inherited)), x)
  {
    ExchangeRatesSettle(inherited, iso);
    TraverseIsIdempotent(ExchangeRates(inherited, iso), x);
    ThrottlesSettle(parse);
    TraverseIsIdempotent(Throttles(parse), x);
    var m := FeeKey(inherited);
    forall k
      ensures m(m(k)) == m(k)
    {
      FeeKeysAreRenamedOnce();
      MappedKeysSettle(FEE_KEYS, inherited, k);
    }
    RenamingSettles(m);
    TraverseIsIdempotent(Renaming(m), x);
  }

  // ----- What the normalizers change -----

  lemma {:induction false} ItemsAreTraversed(cb: Callback, items: seq<Json>)
    ensures TraverseItems(cb, items).None? <==> exists i :: 0 <= i < |items| && Traverse(cb, items[i]).None?
    ensures TraverseItems(cb, items).Some? ==>
              forall i :: 0 <= i < |items| ==> Traverse(cb, items[i]) == Some(TraverseItems(cb, items).value[i])
  {
    if items != [] {
      var front := items[..|items| - 1];
      ItemsAreTraversed(cb, front);
      assert forall i :: 0 <= i < |front| ==> front[i] == items[i];
      assert forall i :: 0 <= i < |items| ==> i == |items| - 1 || items[i] == front[i];
    }
  }

  /** A new key has the new value of the last field that is renamed to it. */
  lemma {:induction false} LastFieldWins(cb: Callback, fields: seq<Field>, i: nat)
    requires TraverseFields(cb, fields).Some? && i < |fields|
    requires forall j :: i < j < |fields| ==> cb.rename(fields[j].key) != cb.rename(fields[i].key)
    ensures Property(TraverseFields(cb, fields).value, cb.rename(fields[i].key)) == NewValue(cb, fields[i])
  {
    var front, last := fields[..|fields| - 1], fields[|fields| - 1];
    PropertyOfAssign(TraverseFields(cb, front).value, cb.rename(last.key), NewValue(cb, last).value,
                     cb.rename(fields[i].key));
    if i < |front| {
      LastFieldWins(cb, front, i);
    }
  }

  /** There are no keys but those that fields are renamed to. */
  lemma {:induction false} NoOtherKeys(cb: Callback, fields: seq<Field>, name: string)
    requires TraverseFields(cb, fields).Some?
    requires forall i :: 0 <= i < |fields| ==> cb.rename(fields[i].key) != name
    ensures Property(TraverseFields(cb, fields).value, name).None?
  {
    if fields != [] {
      var front, last := fields[..|fields| - 1], fields[|fields| - 1];
      NoOtherKeys(cb, front, name);
      PropertyOfAssign(TraverseFields(cb, front).value, cb.rename(last.key), NewValue(cb, last).value, name);
    }
  }

  /** Fields whose new keys differ stay in their places. */
  lemma {:induction false} DistinctFieldsAreKept(cb: Callback, fields: seq<Field>)
    requires forall i :: 0 <= i < |fields| ==> NewValue(cb, fields[i]).Some?
    requires forall i, j :: 0 <= i < j < |fields| ==> cb.rename(fields[i].key) != cb.rename(fields[j].key)
    ensures var r := TraverseFields(cb, fields);
            && r.Some? && |r.value| == |fields|
            && forall i :: 0 <= i < |fields| ==>
                 r.value[i] == Field(cb.rename(fields[i].key), NewValue(cb, fields[i]).value)
  {
    if fields != [] {
      var front, last := fields[..|fields| - 1], fields[|fields| - 1];
      DistinctFieldsAreKept(cb, front);
      assert !HasKey(TraverseFields(cb, front).value, cb.rename(last.key));
    }
  }

  /** The amounts of an exchange rate get their new names. */
  lemma AmountNames(inherited: Prototype)
    ensures Mapped(EXCHANGE_RATE_KEYS, inherited, "hbarEquiv") == "hbars"
    ensures Mapped(EXCHANGE_RATE_KEYS, inherited, "centEquiv") == "cents"
  {
  }

  /** They keep their values, like all scalars but an expiration time. */
  lemma AmountValues(inherited: Prototype, iso: Json -> Option<string>, f: Field)
    requires f.key != "expirationTime" && IsScalar(f.value)
    ensures NewValue(ExchangeRates(inherited, iso), f) == Some(f.value)
  {
  }

  /** An expiration time with seconds becomes their ISO date, or throws when there is none. */
  lemma NormalizedDate(inherited: Prototype, iso: Json -> Option<string>, fields: seq<Field>, seconds: Json)
    requires Property(fields, "seconds") == Some(seconds)
    requires seconds !in {Null, Bool(false), Num(0), NotANumber, Str("")}
    ensures NewValue(ExchangeRates(inherited, iso), Field("expirationTime", Obj(fields)))
            == match iso(seconds)
               case Some(date) => Some(Str(date))
               case None => None
  {
  }

  /** Without seconds the value is traversed, and null throws. */
  lemma OtherExpirationTimes(inherited: Prototype, iso: Json -> Option<string>, fields: seq<Field>, items: seq<Json>)
    requires Property(fields, "seconds") in {None, Some(Null), Some(Bool(false)), Some(Num(0)), Some(Str(""))}
    ensures var cb := ExchangeRates(inherited, iso);
            && NewValue(cb, Field("expirationTime", Null)) == None
            && NewValue(cb, Field("expirationTime", Arr(items))) == Traverse(cb, Arr(items))
            && NewValue(cb, Field("expirationTime", Obj(fields))) == Traverse(cb, Obj(fields))
  {
  }

  /** A rate or a burst period that is a text becomes the number that it is read as; other values stay. */
  lemma NormalizedThrottle(parse: string -> Option<int>, key: string, text: string, n: int)
    ensures var cb := Throttles(parse);
            && cb.rename(key) == key
            && (key in {"milliOpsPerSec", "burstPeriodMs"} && parse(text) == Some(n) ==>
                  NewValue(cb, Field(key, Str(text))) == Some(Num(n)))
            && (key in {"milliOpsPerSec", "burstPeriodMs"} && parse(text).None? ==>
                  NewValue(cb, Field(key, Str(text))) == Some(NotANumber))
            && (key !in {"milliOpsPerSec", "burstPeriodMs"} ==> NewValue(cb, Field(key, Str(text))) == Some(Str(text)))
            && NewValue(cb, Field(key, Num(n))) == Some(Num(n))
  {
  }

  // ----- Leaving keys out -----

  /** The document without the fields whose key satisfies p. */
  function Without(p: string -> bool, x: Json): Json
    decreases x, 1
  {
    match x
    case Arr(items) => Arr(WithoutItems(p, items))
    case Obj(fields) => Obj(WithoutFields(p, fields))
    case _ => x
  }

  function WithoutItems(p: string -> bool, items: seq<Json>): seq<Json>
    decreases items, 0
  {
    if items == [] then []
    else WithoutItems(p, items[..|items| - 1]) + [Without(p, items[|items| - 1])]
  }

  function WithoutFields(p: string -> bool, fields: seq<Field>): seq<Field>
    decreases fields, 0
  {
    if fields == [] then []
    else
      var front, last := WithoutFields(p, fields[..|fields| - 1]), fields[|fields| - 1];
      if p(last.key) then front else front + [Field(last.key, Without(p, last.value))]
  }

  lemma {:induction false} WithoutHasKey(p: string -> bool, fields: seq<Field>, key: string)
    ensures HasKey(WithoutFields(p, fields), key) <==> HasKey(fields, key) && !p(key)
  {
    if fields != [] {
      var front, last := fields[..|fields| - 1], fields[|fields| - 1];
      WithoutHasKey(p, front, key);
      AddedKey(front, last, key);
      assert front + [last] == fields;
      if !p(last.key) {
        AddedKey(WithoutFields(p, front), Field(last.key, Without(p, last.value)), key);
      }
    }
  }

  lemma AddedKey(front: seq<Field>, last: Field, key: string)
    ensures HasKey(front + [last], key) <==> HasKey(front, key) || last.key == key
  {
    var fields := front + [last];
    assert fields[|front|] == last;
    assert forall i :: 0 <= i < |front| ==> fields[i] == front[i];
  }

  /** The way to a value inside a document. */
  datatype Position = Key(key: string) | Index(i: nat)

  function ValueAt(x: Json, path: seq<Position>): Option<Json>
    decreases |path|
  {
    if path == [] then Some(x)
    else
      match path[0]
      case Key(key) =>
        if x.Obj? && Property(x.fields, key).Some? then ValueAt(Property(x.fields, key).value, path[1..]) else None
      case Index(i) =>
        if x.Arr? && i < |x.items| then ValueAt(x.items[i], path[1..]) else None
  }

  predicate Passes(p: string -> bool, path: seq<Position>) {
    forall i :: 0 <= i < |path| ==> path[i].Key? ==> !p(path[i].key)
  }

  lemma {:induction false} PropertyWithout(p: string -> bool, fields: seq<Field>, key: string)
    ensures var before, after := Property(fields, key), Property(WithoutFields(p, fields), key);
            if p(key) || before.None? then after.None? else after == Some(Without(p, before.value))
  {
    if fields != [] {
      PropertyWithout(p, fields[..|fields| - 1], key);
      var w := WithoutFields(p, fields);
      if !p(fields[|fields| - 1].key) {
        assert w[..|w| - 1] == WithoutFields(p, fields[..|fields| - 1]);
      }
    }
  }

  lemma {:induction false} ItemsWithout(p: string -> bool, items: seq<Json>)
    ensures |WithoutItems(p, items)| == |items|
    ensures forall i :: 0 <= i < |items| ==> WithoutItems(p, items)[i] == Without(p, items[i])
  {
    if items != [] {
      ItemsWithout(p, items[..|items| - 1]);
    }
  }

  /** Whatever its depth, a value is removed exactly when a key on the way to it is. */
  lemma {:induction false} RemovedExactly(p: string -> bool, x: Json, path: seq<Position>)
    ensures var before, after := ValueAt(x, path), ValueAt(Without(p, x), path);
            if Passes(p, path) && before.Some? then after == Some(Without(p, before.value)) else after.None?
    decreases |path|
  {
    if path != [] {
      assert Passes(p, path) <==> (path[0].Key? ==> !p(path[0].key)) && Passes(p, path[1..]) by {
        assert forall i :: 0 < i < |path| ==> path[i] == path[1..][i - 1];
      }
      if path[0].Key? && x.Obj? {
        PropertyWithout(p, x.fields, path[0].key);
        if Property(x.fields, path[0].key).Some? {
          RemovedExactly(p, Property(x.fields, path[0].key).value, path[1..]);
        }
      } else if path[0].Index? && x.Arr? {
        ItemsWithout(p, x.items);
        if path[0].i < |x.items| {
          RemovedExactly(p, x.items[path[0].i], path[1..]);
        }
      }
    }
  }

  /** The fields that are left keep their order. */
  lemma {:induction false} WithoutInOrder(p: string -> bool, xs: seq<Field>, ys: seq<Field>)
    ensures WithoutFields(p, xs + ys) == WithoutFields(p, xs) + WithoutFields(p, ys)
  {
    if ys == [] {
      assert xs + ys == xs;
    } else {
      assert (xs + ys)[..|xs + ys| - 1] == xs + ys[..|ys| - 1];
      WithoutInOrder(p, xs, ys[..|ys| - 1]);
    }
  }

  /** removeKeys. The new object never gets a key twice. */
  method RemoveKeys(obj: Json, keysToRemove: seq<string>) returns (r: Json)
    requires WellFormed(obj)
    ensures r == Without(key => key in keysToRemove, obj)
    decreases obj
  {
    ghost var p := key => key in keysToRemove;
    match obj
    case Arr(items) =>
      var newItems: seq<Json> := [];
      for i := 0 to |items|
        invariant newItems == WithoutItems(p, items[..i])
      {
        var item := RemoveKeys(items[i], keysToRemove);
        assert items[..i + 1][..i] == items[..i];
        newItems := newItems + [item];
      }
      assert items[..|items|] == items;
      r := Arr(newItems);
    case Obj(fields) =>
      var acc: seq<Field> := [];
      for i := 0 to |fields|
        invariant acc == WithoutFields(p, fields[..i])
      {
        assert fields[..i + 1][..i] == fields[..i];
        if fields[i].key !in keysToRemove {
          var value := RemoveKeys(fields[i].value, keysToRemove);
          WithoutHasKey(p, fields[..i], fields[i].key);
          acc := Assign(acc, fields[i].key, value);
        }
      }
      assert fields[..|fields|] == fields;
      r := Obj(acc);
    case _ =>
      r := obj;
  }

  function Rename(m: string -> string, x: Json): Json {
    var r := Traverse(Renaming(m), x);
    if r.Some? then r.value else x
  }

  function RenameItems(m: string -> string, items: seq<Json>): seq<Json> {
    var r := TraverseItems(Renaming(m), items);
    if r.Some? then r.value else items
  }

  function RenameFields(m: string -> string, fields: seq<Field>): seq<Field> {
    var r := TraverseFields(Renaming(m), fields);
    if r.Some? then r.value else fields
  }

  lemma {:induction false} RenamingNeverThrows(m: string -> string, x: Json)
    ensures Traverse(Renaming(m), x).Some?
    decreases x, 1
  {
    match x
    case Arr(items) =>
      RenamingItemsNeverThrows(m, items);
    case Obj(fields) =>
      RenamingFieldsNeverThrows(m, fields);
    case _ =>
  }

  lemma {:induction false} RenamingItemsNeverThrows(m: string -> string, items: seq<Json>)
    ensures TraverseItems(Renaming(m), items).Some?
    decreases items, 0
  {
    if items != [] {
      RenamingItemsNeverThrows(m, items[..|items| - 1]);
      RenamingNeverThrows(m, items[|items| - 1]);
    }
  }

  lemma {:induction false} RenamingFieldsNeverThrows(m: string -> string, fields: seq<Field>)
    ensures TraverseFields(Renaming(m), fields).Some?
    decreases fields, 0
  {
    if fields != [] {
      RenamingFieldsNeverThrows(m, fields[..|fields| - 1]);
      RenamingNeverThrows(m, fields[|fields| - 1].value);
    }
  }

  lemma RenameSteps(m: string -> string, items: seq<Json>, fields: seq<Field>)
    ensures Rename(m, Arr(items)) == Arr(RenameItems(m, items))
    ensures Rename(m, Obj(fields)) == Obj(RenameFields(m, fields))
    ensures RenameItems(m, []) == [] && RenameFields(m, []) == []
    ensures items != [] ==>
              RenameItems(m, items) == RenameItems(m, items[..|items| - 1]) + [Rename(m, items[|items| - 1])]
    ensures fields != [] ==>
              var last := fields[|fields| - 1];
              RenameFields(m, fields)
              == Assign(RenameFields(m, fields[..|fields| - 1]), m(last.key), Rename(m, last.value))
  {
    RenamingItemsNeverThrows(m, items);
    RenamingFieldsNeverThrows(m, fields);
  }

  lemma {:induction false} WithoutAssigned(p: string -> bool, fields: seq<Field>, key: string, value: Json)
    ensures WithoutFields(p, Assign(fields, key, value))
            == if p(key) then WithoutFields(p, fields) else Assign(WithoutFields(p, fields), key, Without(p, value))
  {
    WithoutHasKey(p, fields, key);
    if HasKey(fields, key) {
      WithoutReplaced(p, fields, key, value);
    } else {
      var r := fields + [Field(key, value)];
      assert r[..|r| - 1] == fields;
    }
  }

  lemma {:induction false} WithoutReplaced(p: string -> bool, fields: seq<Field>, key: string, value: Json)
    ensures WithoutFields(p, Replace(fields, key, value))
            == if p(key) then WithoutFields(p, fields) else Replace(WithoutFields(p, fields), key, Without(p, value))
  {
    if fields != [] {
      var front, last := fields[..|fields| - 1], fields[|fields| - 1];
      WithoutReplaced(p, front, key, value);
      var r := Replace(fields, key, value);
      assert r[..|r| - 1] == Replace(front, key, value);
      if !p(last.key) {
        var w := WithoutFields(p, fields);
        assert w[..|w| - 1] == WithoutFields(p, front);
      }
    }
  }

  /** Leaving keys out after renaming is leaving out, before it, the keys renamed to them, even where keys collide. */
  lemma {:induction false} RenameThenRemove(m: string -> string, p: string -> bool, x: Json)
    ensures Without(p, Rename(m, x)) == Rename(m, Without(k => p(m(k)), x))
    decreases x, 1
  {
    match x
    case Arr(items) =>
      RenameThenRemoveItems(m, p, items);
      RenameSteps(m, items, []);
      RenameSteps(m, WithoutItems(k => p(m(k)), items), []);
    case Obj(fields) =>
      RenameThenRemoveFields(m, p, fields);
      RenameSteps(m, [], fields);
      RenameSteps(m, [], WithoutFields(k => p(m(k)), fields));
    case _ =>
  }

  lemma {:induction false} RenameThenRemoveItems(m: string -> string, p: string -> bool, items: seq<Json>)
    ensures WithoutItems(p, RenameItems(m, items)) == RenameItems(m, WithoutItems(k => p(m(k)), items))
    decreases items, 0
  {
    var q := k => p(m(k));
    RenameSteps(m, items, []);
    if items != [] {
      var front, last := items[..|items| - 1], items[|items| - 1];
      RenameThenRemoveItems(m, p, front);
      RenameThenRemove(m, p, last);
      var r, w := RenameItems(m, items), WithoutItems(q, items);
      assert r[..|r| - 1] == RenameItems(m, front);
      assert w[..|w| - 1] == WithoutItems(q, front);
      RenameSteps(m, w, []);
    }
  }

  lemma {:induction false} RenameThenRemoveFields(m: string -> string, p: string -> bool, fields: seq<Field>)
    ensures WithoutFields(p, RenameFields(m, fields)) == RenameFields(m, WithoutFields(k => p(m(k)), fields))
    decreases fields, 0
  {
    var q := k => p(m(k));
    RenameSteps(m, [], fields);
    if fields != [] {
      var front, last := fields[..|fields| - 1], fields[|fields| - 1];
      RenameThenRemoveFields(m, p, front);
      RenameThenRemove(m, p, last.value);
      WithoutAssigned(p, RenameFields(m, front), m(last.key), Rename(m, last.value));
      if !q(last.key) {
        var w := WithoutFields(q, fields);
        assert w[..|w| - 1] == WithoutFields(q, front);
        RenameSteps(m, [], w);
      }
    }
  }

  // ----- Renaming back -----

  /** Every key, at every depth, comes back from m by back. */
  predicate ComesBack(back: string -> string, m: string -> string, x: Json) {
    match x
    case Arr(items) => forall i :: 0 <= i < |items| ==> ComesBack(back, m, items[i])
    case Obj(fields) =>
      forall i :: 0 <= i < |fields| ==> back(m(fields[i].key)) == fields[i].key && ComesBack(back, m, fields[i].value)
    case _ => true
  }

  /** No two keys were renamed to one. */
  predicate NoneMerged(m: string -> string, fields: seq<Field>, r: seq<Field>) {
    |r| == |fields| && forall i :: 0 <= i < |r| ==> r[i] == Field(m(fields[i].key), Rename(m, fields[i].value))
  }

  lemma {:induction false} FullLengthMeansNoneMerged(m: string -> string, fields: seq<Field>)
    ensures var r := RenameFields(m, fields);
            |r| <= |fields| && (|r| == |fields| ==> NoneMerged(m, fields, r))
  {
    RenameSteps(m, [], fields);
    if fields != [] {
      FullLengthMeansNoneMerged(m, fields[..|fields| - 1]);
    }
  }

  lemma {:induction false} DistinctMeansNoneMerged(m: string -> string, fields: seq<Field>)
    requires forall i, j :: 0 <= i < j < |fields| ==> m(fields[i].key) != m(fields[j].key)
    ensures NoneMerged(m, fields, RenameFields(m, fields))
  {
    RenameSteps(m, [], fields);
    if fields != [] {
      DistinctMeansNoneMerged(m, fields[..|fields| - 1]);
    }
  }

  lemma {:induction false} RenameItemsAt(m: string -> string, items: seq<Json>)
    ensures var r := RenameItems(m, items);
            |r| == |items| && forall i :: 0 <= i < |r| ==> r[i] == Rename(m, items[i])
  {
    RenameSteps(m, items, []);
    if items != [] {
      RenameItemsAt(m, items[..|items| - 1]);
    }
  }

  lemma RenamedItemsComeBackIff(back: string -> string, m: string -> string, items: seq<Json>)
    requires forall i :: 0 <= i < |items| ==>
               (Rename(back, Rename(m, items[i])) == items[i] <==> ComesBack(back, m, items[i]))
    ensures RenameItems(back, RenameItems(m, items)) == items <==> ComesBack(back, m, Arr(items))
  {
    RenameItemsAt(m, items);
    RenameItemsAt(back, RenameItems(m, items));
  }

  lemma RenamedFieldsComeBackIff(back: string -> string, m: string -> string, fields: seq<Field>)
    requires DistinctKeys(fields)
    requires forall i :: 0 <= i < |fields| ==>
               (Rename(back, Rename(m, fields[i].value)) == fields[i].value <==> ComesBack(back, m, fields[i].value))
    ensures RenameFields(back, RenameFields(m, fields)) == fields <==> ComesBack(back, m, Obj(fields))
  {
    var renamed := RenameFields(m, fields);
    FullLengthMeansNoneMerged(m, fields);
    FullLengthMeansNoneMerged(back, renamed);
    if ComesBack(back, m, Obj(fields)) {
      DistinctMeansNoneMerged(m, fields);
      DistinctMeansNoneMerged(back, renamed);
    }
  }

  /** The inverse renaming restores a document exactly when it takes each renamed key back. */
  lemma {:induction false} RenamingBackRestoresIff(back: string -> string, m: string -> string, x: Json)
    requires WellFormed(x)
    ensures Rename(back, Rename(m, x)) == x <==> ComesBack(back, m, x)
  {
    match x
    case Arr(items) =>
      forall i | 0 <= i < |items|
        ensures Rename(back, Rename(m, items[i])) == items[i] <==> ComesBack(back, m, items[i])
      {
        RenamingBackRestoresIff(back, m, items[i]);
      }
      RenamedItemsComeBackIff(back, m, items);
      RenameSteps(m, items, []);
      RenameSteps(back, RenameItems(m, items), []);
    case Obj(fields) =>
      forall i | 0 <= i < |fields|
        ensures Rename(back, Rename(m, fields[i].value)) == fields[i].value <==> ComesBack(back, m, fields[i].value)
      {
        RenamingBackRestoresIff(back, m, fields[i].value);
      }
      RenamedFieldsComeBackIff(back, m, fields);
      RenameSteps(m, [], fields);
      RenameSteps(back, [], RenameFields(m, fields));
    case _ =>
  }

  function ShortFeeKey(key: string): string {
    match key
    case "current" => "currentFeeSchedule"
    case "feeDataType" => "subType"
    case "transactionBandwidthByte" => "bpt"
    case "transactionVerification" => "vpt"
    case "transactionRamByteHour" => "rbh"
    case "transactionStorageByteHour" => "sbh"
    case "contractTransactionGas" => "gas"
    case "transferVolumeHbar" => "tv"
    case "responseMemoryByte" => "bpr"
    case "responseDiskByte" => "sbpr"
    case "next" => "nextFeeSchedule"
    case "expirationTime" => "expiryTime"
    case _ => key
  }

  lemma FeeKeyComesBack(key: string)
    requires key in FEE_KEYS
    ensures ShortFeeKey(FEE_KEYS[key]) == key
  {
  }

  lemma ShortFeeKeysAreKnown(key: string)
    requires ShortFeeKey(key) != key
    ensures ShortFeeKey(key) in FEE_KEYS && FEE_KEYS[ShortFeeKey(key)] == key
  {
  }

  lemma NewFeeKeysAreShortened(key: string)
    requires key in FEE_KEYS.Values
    ensures ShortFeeKey(key) != key
  {
  }

  lemma OtherFeeKeysStay(key: string)
    requires key !in FEE_KEYS.Values
    ensures ShortFeeKey(key) == key
  {
    if ShortFeeKey(key) != key {
      ShortFeeKeysAreKnown(key);
    }
  }

  /**
   Fee schedule names are not lost by normalizing, except where the document already
   uses a new name or a name that objects inherit.
   */
  lemma FeeKeysComeBackIff(inherited: Prototype, key: string)
    ensures ShortFeeKey(FeeKey(inherited)(key)) == key <==> key !in FEE_KEYS.Values && key !in inherited
  {
    FeeKeysAreRenamedOnce();
    if key in FEE_KEYS {
      FeeKeyComesBack(key);
      assert FEE_KEYS[key] in FEE_KEYS.Values;
    } else if key in inherited {
      assert inherited[key] in inherited.Values;
      OtherFeeKeysStay(inherited[key]);
    } else if key in FEE_KEYS.Values {
      NewFeeKeysAreShortened(key);
    } else {
      OtherFeeKeysStay(key);
    }
  }
}
