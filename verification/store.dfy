/** The typed preference store: a dictionary from keys to values of the six
    supported kinds that exists only once a save has been loaded, with
    getters that fall back to a caller's default and a reserved "date" key
    that the float setter refuses. */
module TypedStore {
  import opened Wrappers
  import opened Text
  import opened PrefValues

  /** The key the save routine owns: it holds the time of the last save. */
  const DateKey := "date"

  /** The process-wide dictionary, which is null until a save is loaded. */
  datatype Store = NotLoaded | Loaded(entries: map<string, Value>)

  /** The cast inside a getter throws when the stored value has another kind. */
  datatype GetError = InvalidCast

  /** `m'` agrees with `m` on every key other than `key`. */
  ghost predicate SameElsewhere(m: map<string, Value>, m': map<string, Value>, key: string) {
    forall k :: k != key ==> (k in m <==> k in m') && (k in m ==> m'[k] == m[k])
  }

  /** `r` is `s` after `key` was assigned `v`: an unloaded store stays
      unloaded; otherwise `key` maps to `v` and nothing else changes. */
  ghost predicate Assigned(s: Store, r: Store, key: string, v: Value) {
    && (s.NotLoaded? ==> r == NotLoaded)
    && (s.Loaded? ==> r.Loaded? && key in r.entries && r.entries[key] == v && SameElsewhere(s.entries, r.entries, key))
  }

  /** `data[key] = value` behind the null check: an insert or an overwrite. */
  function Put(s: Store, key: string, v: Value): (r: Store)
    ensures Assigned(s, r, key, v)
  {
    match s
    case NotLoaded => NotLoaded
    case Loaded(m) => Loaded(m[key := v])
  }

  /** The six setters, `SetBool` to `SetVector3`, the kind of `v` saying
      which one is called. Only `SetFloat` refuses the reserved key. */
  function Set(s: Store, key: string, v: Value): (r: Store)
    ensures v.FloatValue? && key == DateKey ==> r == s
    ensures !(v.FloatValue? && key == DateKey) ==> Assigned(s, r, key, v)
  {
    if v.FloatValue? && key == DateKey then s else Put(s, key, v)
  }

  /** What a getter answers when no save is loaded: `false`, `-1`, `-1f`,
      the empty string or the zero vector, by kind. */
  function UnloadedDefault(kind: Value): (d: Value)
    ensures KindName(d) == KindName(kind)
  {
    match kind
    case BoolValue(_) => BoolValue(false)
    case IntValue(_) => IntValue(-1)
    case FloatValue(_) => FloatValue(MinusOne)
    case StringValue(_) => StringValue("")
    case Vector2Value(_, _) => Vector2Value(Zero, Zero)
    case Vector3Value(_, _, _) => Vector3Value(Zero, Zero, Zero)
  }

  /** The six getters with a fallback, `GetBool(key, fallback)` to
      `GetVector3(key, fallback)`, the kind of `fallback` saying which one
      is called. */
  function Get(s: Store, key: string, fallback: Value): (r: Result<Value, GetError>)
    ensures r.Success? ==> KindName(r.value) == KindName(fallback)
    ensures s.NotLoaded? ==> r == Success(UnloadedDefault(fallback))
    ensures s.Loaded? && key !in s.entries ==> r == Success(fallback)
    ensures s.Loaded? && key in s.entries ==>
      && (r.Success? <==> KindName(s.entries[key]) == KindName(fallback))
      && (r.Success? ==> r.value == s.entries[key])
  {
    match s
    case NotLoaded => Success(UnloadedDefault(fallback))
    case Loaded(m) =>
      if key !in m then Success(fallback)
      else if KindName(m[key]) == KindName(fallback) then Success(m[key])
      else Failure(InvalidCast)
  }

  /** The six getters without a fallback, `GetBool(key)` to
      `GetVector3(key)`, the kind of `kind` saying which one is called. An
      absent key is logged and answered like an unloaded store. */
  function GetRequired(s: Store, key: string, kind: Value): (r: Result<Value, GetError>)
    ensures r.Success? ==> KindName(r.value) == KindName(kind)
    ensures !(s.Loaded? && key in s.entries) ==> r == Success(UnloadedDefault(kind))
    ensures s.Loaded? && key in s.entries ==>
      && (r.Success? <==> KindName(s.entries[key]) == KindName(kind))
      && (r.Success? ==> r.value == s.entries[key])
  {
    match s
    case NotLoaded => Success(UnloadedDefault(kind))
    case Loaded(m) =>
      if key !in m then Success(UnloadedDefault(kind))
      else if KindName(m[key]) == KindName(kind) then Success(m[key])
      else Failure(InvalidCast)
  }

  /** A getter without a fallback is the getter whose fallback is the
      unloaded default of its kind. */
  lemma RequiredIsDefaultFallback(s: Store, key: string, kind: Value)
    ensures GetRequired(s, key, kind) == Get(s, key, UnloadedDefault(kind))
  {
  }

  /** Whether `key` holds a value; an unloaded store holds none. */
  function HasKey(s: Store, key: string): (b: bool)
    ensures b <==> s.Loaded? && key in s.entries
  {
    match s
    case NotLoaded => false
    case Loaded(m) => key in m
  }

  /** Removes `key`; an absent key or an unloaded store is left as it is. */
  function DeleteKey(s: Store, key: string): (r: Store)
    ensures !HasKey(r, key)
    ensures s.Loaded? <==> r.Loaded?
    ensures r.Loaded? ==> SameElsewhere(s.entries, r.entries, key)
    ensures !HasKey(s, key) ==> r == s
  {
    match s
    case NotLoaded => NotLoaded
    case Loaded(m) => Loaded(m - {key})
  }

  /** The number of entries, or -1 when no save is loaded. */
  function GetCount(s: Store): (n: int)
    ensures s.NotLoaded? <==> n == -1
    ensures s.Loaded? ==> n == |s.entries.Keys|
  {
    match s
    case NotLoaded => -1
    case Loaded(m) => |m|
  }

  /** Empties the store, creating it first when none was loaded. */
  function DeleteAll(s: Store): (r: Store)
    ensures GetCount(r) == 0
    ensures forall k :: !HasKey(r, k)
  {
    Loaded(map[])
  }

  /** A getter finds what the matching setter stored, whatever fallback it
      is given. */
  lemma SetThenGet(s: Store, key: string, v: Value, fallback: Value)
    requires s.Loaded?
    requires !(v.FloatValue? && key == DateKey)
    requires KindName(fallback) == KindName(v)
    ensures Get(Set(s, key, v), key, fallback) == Success(v)
  {
  }

  /** Setting one key is invisible to a getter of any other key. */
  lemma SetLeavesOtherKeys(s: Store, key: string, v: Value, other: string, fallback: Value)
    requires other != key
    ensures Get(Set(s, key, v), other, fallback) == Get(s, other, fallback)
  {
  }

  /** In a loaded store a getter's answer depends on its fallback exactly
      when the key is absent. */
  lemma FallbackUsedIffAbsent(s: Store, key: string, a: Value, b: Value)
    requires s.Loaded?
    requires a != b && KindName(a) == KindName(b)
    ensures !HasKey(s, key) <==> Get(s, key, a) != Get(s, key, b)
  {
  }

  /** After a delete, the getters of that key answer their fallback. */
  lemma DeleteThenGet(s: Store, key: string, fallback: Value)
    requires s.Loaded?
    ensures Get(DeleteKey(s, key), key, fallback) == Success(fallback)
  {
  }

  /** The count grows by one exactly when a setter adds a new key, and
      shrinks by one exactly when a delete removes one. */
  lemma CountAfterChange(s: Store, key: string, v: Value)
    requires s.Loaded?
    requires !(v.FloatValue? && key == DateKey)
    ensures GetCount(Set(s, key, v)) == GetCount(s) + (if HasKey(s, key) then 0 else 1)
    ensures GetCount(DeleteKey(s, key)) == GetCount(s) - (if HasKey(s, key) then 1 else 0)
  {
    var m := s.entries;
    if key in m {
      assert Set(s, key, v).entries.Keys == m.Keys;
      assert DeleteKey(s, key).entries.Keys == m.Keys - {key};
    } else {
      assert Set(s, key, v).entries.Keys == m.Keys + {key};
      assert DeleteKey(s, key).entries.Keys == m.Keys;
    }
  }
}
