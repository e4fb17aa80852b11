/**
 * The property bag of ShellBat/Utilities/JsonBasedSettings.cs: a dictionary
 * from property name to boxed value whose keys compare ordinally ignoring
 * case, a change-detecting setter that raises `PropertyChanged`, a getter
 * that falls back to the caller's default, shallow copies, the tolerant
 * deserializer and the decision part of the debounced `Serialize`.
 */
module SettingsStore {
  import opened Common

  /** `_values`, keyed by the case-folded property name; None is a stored null. */
  datatype Store<V> = Store(values: map<string, Option<V>>)

  /** Every key is stored in folded form, as the case-insensitive comparer sees it. */
  ghost predicate Valid<V>(s: Store<V>) {
    forall k :: k in s.values ==> FoldString(k) == k
  }

  function Empty<V>(): (r: Store<V>)
    ensures r.values == map[] && Valid(r)
  {
    Store(map[])
  }

  lemma FoldStringIdempotent(s: string)
    ensures FoldString(FoldString(s)) == FoldString(s)
  {
  }

  /** `TryGetPropertyValue(out value, name)` */
  function TryGet<V>(s: Store<V>, name: string): (r: (bool, Option<V>))
    ensures r.0 <==> FoldString(name) in s.values
    ensures r.0 ==> r.1 == s.values[FoldString(name)]
    ensures !r.0 ==> r.1 == None
  {
    var k := FoldString(name);
    if k in s.values then (true, s.values[k]) else (false, None)
  }

  /**
   * `GetPropertyValue<Tv>(defaultValue, name)`. `convert` stands for
   * `Conversions.TryChangeType<Tv>`: None when the stored value does not
   * convert.
   */
  function Get<V, W>(s: Store<V>, name: string, default: W, convert: Option<V> -> Option<W>): (r: W)
    ensures FoldString(name) !in s.values ==> r == default
    ensures FoldString(name) in s.values ==>
      r == convert(s.values[FoldString(name)]).GetOr(default)
  {
    var found := TryGet(s, name);
    if !found.0 then default
    else match convert(found.1)
      case None => default
      case Some(w) => w
  }

  /** The outcome of `SetPropertyValue`: whether it changed, the new bag, and the
      property names passed to `PropertyChanged`. */
  datatype SetResult<V> = SetResult(changed: bool, store: Store<V>, notified: seq<string>)

  /** `SetPropertyValue(value, name)`; `==` on values stands for `object.Equals`. */
  function Set<V(==)>(s: Store<V>, name: string, value: Option<V>): (r: SetResult<V>)
    ensures r.store.values.Keys == s.values.Keys + {FoldString(name)}
    ensures r.store.values[FoldString(name)] == value
    ensures forall k :: k in s.values && k != FoldString(name) ==> r.store.values[k] == s.values[k]
    ensures r.changed <==> FoldString(name) !in s.values || s.values[FoldString(name)] != value
    ensures r.notified == if r.changed then [name] else []
    ensures Valid(s) ==> Valid(r.store)
  {
    var k := FoldString(name);
    FoldStringIdempotent(name);
    var changed := k !in s.values || s.values[k] != value;
    SetResult(changed, Store(s.values[k := value]), if changed then [name] else [])
  }

  /** A value written under one spelling is read back under any other casing. */
  lemma SetThenGetIgnoresCase<V, W>(s: Store<V>, written: string, read: string, value: Option<V>,
                                        default: W, convert: Option<V> -> Option<W>)
    requires EqualsIgnoreCase(written, read)
    ensures TryGet(Set(s, written, value).store, read) == (true, value)
    ensures Get(Set(s, written, value).store, read, default, convert) == convert(value).GetOr(default)
  {
  }

  /** Repeating a write changes nothing and raises no notification. */
  lemma SetTwiceIsQuiet<V>(s: Store<V>, name: string, value: Option<V>)
    ensures var once := Set(s, name, value).store;
      var twice := Set(once, name, value);
      && !twice.changed && twice.notified == [] && twice.store == once
  {
  }

  /** An unset property reads as the caller's default, whatever the converter. */
  lemma UnsetReadsDefault<V, W>(name: string, default: W, convert: Option<V> -> Option<W>)
    ensures Get(Empty<V>(), name, default, convert) == default
  {
  }

  /** `GetNullifiedValue(name)`; `format` stands for `string.Format("{0}", value)`. */
  function GetNullifiedValue<V>(s: Store<V>, name: string, format: V -> string): (r: Option<string>)
    ensures r.Some? ==> r.value != ""
    ensures TryGet(s, name).1.None? ==> r.None?
    ensures TryGet(s, name).1.Some? ==>
      r == (if format(TryGet(s, name).1.value) == "" then None else Some(format(TryGet(s, name).1.value)))
  {
    var found := TryGet(s, name);
    match found.1
    case None => None
    case Some(v) => Nullify(Some(format(v)))
  }

  /**
   * What is written under one spelling reads back, nullified, under any
   * other casing: text comes back unless it is empty, and null stays null.
   */
  lemma SetThenGetNullified<V>(s: Store<V>, written: string, read: string, value: Option<V>, format: V -> string)
    requires EqualsIgnoreCase(written, read)
    ensures value.None? ==> GetNullifiedValue(Set(s, written, value).store, read, format) == None
    ensures value.Some? ==>
      GetNullifiedValue(Set(s, written, value).store, read, format) == Nullify(Some(format(value.value)))
  {
    SetThenGetIgnoresCase(s, written, read, value, 0, (v: Option<V>) => None);
  }

  /**
   * `CopyFrom(other)`: every pair of a snapshot of `source` is written with
   * `SetPropertyValue`, in whatever order the snapshot lists them. Keys the
   * target holds and the source does not are kept. `changed` is the set of
   * keys for which a `PropertyChanged` was raised.
   */
  method CopyFrom<V(==)>(target: Store<V>, source: Store<V>) returns (r: Store<V>, changed: set<string>)
    requires Valid(source)
    ensures r.values.Keys == target.values.Keys + source.values.Keys
    ensures forall k :: k in source.values ==> r.values[k] == source.values[k]
    ensures forall k :: k in target.values && k !in source.values ==> r.values[k] == target.values[k]
    ensures changed == set k | k in source.values && (k !in target.values || target.values[k] != source.values[k])
    ensures Valid(target) ==> Valid(r)
  {
    r := target;
    changed := {};
    var remaining := source.values.Keys;
    while remaining != {}
      invariant remaining <= source.values.Keys
      invariant r.values.Keys == target.values.Keys + (source.values.Keys - remaining)
      invariant forall k :: k in source.values && k !in remaining ==> r.values[k] == source.values[k]
      invariant forall k :: k in target.values && (k !in source.values || k in remaining) ==> r.values[k] == target.values[k]
      invariant changed == set k | k in source.values && k !in remaining && (k !in target.values || target.values[k] != source.values[k])
      invariant Valid(target) ==> Valid(r)
      decreases remaining
    {
      var k :| k in remaining;
      assert FoldString(k) == k;
      var step := Set(r, k, source.values[k]);
      if step.changed {
        changed := changed + {k};
      }
      r := step.store;
      remaining := remaining - {k};
    }
  }

  /** `Clone()`: a new bag filled by `CopyFrom`, holding exactly the source's pairs. */
  method Clone<V(==)>(source: Store<V>) returns (r: Store<V>, notified: set<string>)
    requires Valid(source)
    ensures r == source
    ensures notified == source.values.Keys
  {
    r, notified := CopyFrom(Empty(), source);
  }

  // ------------------------------------------------------ deserialization

  /** What reading the file produced, as seen by the `catch` blocks. */
  datatype ReadOutcome<T> =
    | OpenFailed      // the file could not be opened (sharing violation retries exhausted, ...)
    | ParseFailed     // the JSON codec threw
    | JsonNull        // the document is the literal `null`
    | Parsed(value: T)

  /** `Deserialize(stream, ..., returnDefaultIfError)`; `created` is `new T()`. */
  function DeserializeStream<T>(outcome: ReadOutcome<T>, created: T, returnDefaultIfError: bool): (r: Option<T>)
    ensures outcome.Parsed? ==> r == Some(outcome.value)
    ensures outcome.JsonNull? ==> r == None
    ensures (outcome.OpenFailed? || outcome.ParseFailed?) ==>
      r == if returnDefaultIfError then None else Some(created)
  {
    match outcome
    case Parsed(v) => Some(v)
    case JsonNull => None
    case _ => if returnDefaultIfError then None else Some(created)
  }

  /** `Deserialize(filePath, ..., returnDefaultIfError)`: a missing file gives a newly created object. */
  function DeserializeFile<T>(isFile: bool, outcome: ReadOutcome<T>, created: T, returnDefaultIfError: bool): (r: Option<T>)
    ensures !isFile ==> r == Some(created)
    ensures isFile && outcome.Parsed? ==> r == Some(outcome.value)
    ensures isFile ==> r == DeserializeStream(outcome, created, returnDefaultIfError)
    ensures r.None? <==>
      isFile && (outcome.JsonNull? || ((outcome.OpenFailed? || outcome.ParseFailed?) && returnDefaultIfError))
    ensures r.Some? && !(isFile && outcome.Parsed?) ==> r == Some(created)
  {
    if !isFile then Some(created)
    else DeserializeStream(outcome, created, returnDefaultIfError)
  }

  /**
   * How `History.SetHistory` and the static `Settings` constructor load:
   * read only an existing file, with `returnDefaultIfError`, then `?? new T()`.
   * The result is never null: the parsed object, or a created one.
   */
  function LoadOrNew<T>(isFile: bool, outcome: ReadOutcome<T>, created: T): (r: T)
    ensures isFile && outcome.Parsed? ==> r == outcome.value
    ensures !(isFile && outcome.Parsed?) ==> r == created
  {
    if isFile then DeserializeFile(isFile, outcome, created, true).GetOr(created) else created
  }

  // ------------------------------------------------------ serialization

  /** `FilePath`, whether `_serializeTimer` is armed, and the number of file writes so far. */
  datatype Persistence = Persistence(filePath: Option<string>, pending: bool, writes: nat)

  datatype SerializeOutcome =
    | Written           // `deferTime <= 0`: written synchronously
    | Scheduled         // a timer was created
    | Rescheduled       // the existing timer was pushed back
    | NoFilePath        // `InvalidOperationException`

  const DefaultDeferTime := 300

  /** `Serialize(resolver, deferTime)`: at most one timer is ever armed. */
  function Serialize(p: Persistence, deferTime: int): (r: (SerializeOutcome, Persistence))
    ensures p.filePath.None? ==> r == (NoFilePath, p)
    ensures p.filePath.Some? && deferTime <= 0 ==>
      r.0 == Written && r.1 == p.(writes := p.writes + 1)
    ensures p.filePath.Some? && deferTime > 0 ==>
      && r.1 == p.(pending := true)
      && r.0 == if p.pending then Rescheduled else Scheduled
  {
    if p.filePath.None? then (NoFilePath, p)
    else if deferTime <= 0 then (Written, p.(writes := p.writes + 1))
    else if p.pending then (Rescheduled, p)
    else (Scheduled, p.(pending := true))
  }

  /** The timer callback: write, then disarm. */
  function TimerElapsed(p: Persistence): (r: Persistence)
    ensures !r.pending
    ensures r.writes == if p.pending then p.writes + 1 else p.writes
  {
    if p.pending then p.(pending := false, writes := p.writes + 1) else p
  }

  /** `n` calls to `Serialize` with the same delay. */
  function SerializeRepeatedly(p: Persistence, n: nat, deferTime: int): Persistence
    decreases n
  {
    if n == 0 then p else SerializeRepeatedly(Serialize(p, deferTime).1, n - 1, deferTime)
  }

  /** Any burst of deferred saves arms one timer and writes nothing yet. */
  lemma {:induction false} DeferredSavesCoalesce(p: Persistence, n: nat, deferTime: int)
    requires p.filePath.Some? && deferTime > 0 && n >= 1
    ensures var q := SerializeRepeatedly(p, n, deferTime);
      && q.pending && q.writes == p.writes && q.filePath == p.filePath
      && TimerElapsed(q).writes == p.writes + 1
    decreases n
  {
    if n > 1 {
      DeferredSavesCoalesce(Serialize(p, deferTime).1, n - 1, deferTime);
    }
  }

  /**
   * `Dispose()`: an armed timer is disposed and `Serialize` is called again
   * with the default delay of 300 ms, which arms a new timer instead of
   * writing.
   */
  function Dispose(p: Persistence): (r: (Option<SerializeOutcome>, Persistence))
    ensures !p.pending ==> r == (None, p)
    ensures p.pending ==> r.0.Some? && r.1.writes == p.writes
    ensures p.pending && p.filePath.Some? ==> r.0 == Some(Scheduled)
  {
    if p.pending then
      var (outcome, q) := Serialize(p.(pending := false), DefaultDeferTime);
      (Some(outcome), q)
    else (None, p)
  }

  /** Disposing with a write pending performs no write: it is still pending afterwards. */
  lemma DisposeLeavesWritePending(p: Persistence)
    requires p.pending && p.filePath.Some?
    ensures Dispose(p).1.pending && Dispose(p).1.writes == p.writes
  {
  }

  /** A disposal that flushes: a pending write happens now, and nothing stays armed. */
  function DisposeFlushing(p: Persistence): (r: Persistence)
    ensures !r.pending
    ensures p.filePath.Some? && p.pending ==> r.writes == p.writes + 1
    ensures !p.pending ==> r == p
  {
    if p.pending then Serialize(p.(pending := false), 0).1 else p
  }
}
