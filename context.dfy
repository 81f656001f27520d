/** The mutable application context (context.go): a key/value store that
    shares its values map between the contexts made from it by Join, and
    answers lookups from its parent first. */
module MutableContext {
  import opened BundleModel

  /** A channel, identified by its identity only. */
  type Channel = nat

  /** What Deadline reports: a time (0 stands for the zero time.Time) and
      whether a deadline is set. */
  datatype DeadlineResult = DeadlineResult(time: int, ok: bool)

  /** A standard-library context seen from outside: the values it answers
      for (a missing key answers nil), its error, its done channel (None is a
      nil channel) and its deadline. */
  datatype Parent<K, V> = Parent(values: map<K, V>, err: Option<Error>, done: Option<Channel>, deadline: DeadlineResult)

  /** The value the parent, if there is one, answers for key; None is nil. */
  function ParentValue<K, V>(parent: Option<Parent<K, V>>, key: K): (r: Option<V>)
    ensures r.Some? <==> parent.Some? && key in parent.value.values
  {
    if parent.Some? && key in parent.value.values then Some(parent.value.values[key]) else None
  }

  /** The entry under key in the local values map; None is nil, both for a
      missing key and for a key set to nil. */
  function LocalValue<K, V>(local: map<K, Option<V>>, key: K): (r: Option<V>)
    ensures r.Some? ==> key in local && local[key] == r
  {
    if key in local then local[key] else None
  }

  /** Context.Value on a parent and a local map: the parent's non-nil answer
      wins, otherwise the local entry. */
  function Lookup<K, V>(parent: Option<Parent<K, V>>, local: map<K, Option<V>>, key: K): (r: Option<V>)
    ensures ParentValue(parent, key).Some? ==> r == ParentValue(parent, key)
    ensures ParentValue(parent, key).None? ==> r == LocalValue(local, key)
    ensures r.Some? ==> r == ParentValue(parent, key) || (key in local && local[key] == r)
  {
    var v := ParentValue(parent, key);
    if v.Some? then v else LocalValue(local, key)
  }

  /** After storing v under k, looking up k gives v unless the parent
      answers for k. */
  lemma LookupAfterSet<K, V>(parent: Option<Parent<K, V>>, local: map<K, Option<V>>, k: K, v: Option<V>)
    ensures ParentValue(parent, k).None? ==> Lookup(parent, local[k := v], k) == v
    ensures ParentValue(parent, k).Some? ==> Lookup(parent, local[k := v], k) == Lookup(parent, local, k)
  {
  }

  /** Storing under k does not change what any other key looks up to. */
  lemma LookupOtherKey<K, V>(parent: Option<Parent<K, V>>, local: map<K, Option<V>>, k: K, v: Option<V>, j: K)
    requires j != k
    ensures Lookup(parent, local[k := v], j) == Lookup(parent, local, j)
  {
  }

  /** With an empty local map, only the parent can answer. */
  lemma LookupEmpty<K, V>(parent: Option<Parent<K, V>>, key: K)
    ensures Lookup(parent, map[], key) == ParentValue(parent, key)
  {
  }

  /** The values map, a heap object so that contexts can share it. */
  class Store<K(==), V> {
    var entries: map<K, Option<V>>

    constructor ()
      ensures entries == map[]
    {
      entries := map[];
    }
  }

  class Context<K(==), V> {
    const parent: Option<Parent<K, V>>
    const values: Store<K, V>

    /** NewContext: the given parent and a fresh, empty values map. */
    constructor (parent: Option<Parent<K, V>>)
      ensures this.parent == parent
      ensures fresh(values) && values.entries == map[]
    {
      this.parent := parent;
      values := new Store();
    }

    /** The context Join builds: a new parent and an existing values map. */
    constructor Sharing(parent: Option<Parent<K, V>>, values: Store<K, V>)
      ensures this.parent == parent && this.values == values
    {
      this.parent := parent;
      this.values := values;
    }

    /** Value: the parent's non-nil value first, then the local entry; nil
        when neither has one. */
    function Value(key: K): (r: Option<V>)
      reads values
      ensures parent.Some? && key in parent.value.values ==> r == Some(parent.value.values[key])
      ensures !(parent.Some? && key in parent.value.values) && key in values.entries ==> r == values.entries[key]
      ensures !(parent.Some? && key in parent.value.values) && key !in values.entries ==> r.None?
    {
      Lookup(parent, values.entries, key)
    }

    /** Set stores value under key in the shared values map. */
    method Set(key: K, value: Option<V>)
      modifies values
      ensures values.entries == old(values.entries)[key := value]
      ensures ParentValue(parent, key).None? ==> Value(key) == value
      ensures forall j :: j != key ==> Value(j) == Lookup(parent, old(values.entries), j)
    {
      values.entries := values.entries[key := value];
      LookupAfterSet(parent, old(values.entries), key, value);
      forall j | j != key
        ensures Value(j) == Lookup(parent, old(values.entries), j)
      {
        LookupOtherKey(parent, old(values.entries), key, value, j);
      }
    }

    /** Join: a new context with parent p over the same values map. */
    method Join(p: Parent<K, V>) returns (c: Context<K, V>)
      ensures fresh(c)
      ensures c.parent == Some(p) && c.values == values
      ensures c.Err() == p.err && c.Done() == p.done && c.Deadline() == p.deadline
    {
      c := new Context.Sharing(Some(p), values);
    }

    /** Err delegates to the parent; nil without one. */
    function Err(): (r: Option<Error>)
      ensures parent.None? ==> r.None?
      ensures parent.Some? ==> r == parent.value.err
    {
      if parent.Some? then parent.value.err else None
    }

    /** Done delegates to the parent; a nil channel without one. */
    function Done(): (r: Option<Channel>)
      ensures parent.None? ==> r.None?
      ensures parent.Some? ==> r == parent.value.done
    {
      if parent.Some? then parent.value.done else None
    }

    /** Deadline delegates to the parent; the zero time and false without
        one. */
    function Deadline(): (r: DeadlineResult)
      ensures parent.None? ==> r == DeadlineResult(0, false)
      ensures parent.Some? ==> r == parent.value.deadline
    {
      if parent.Some? then parent.value.deadline else DeadlineResult(0, false)
    }
  }

  /** A background context with no values, no error, no done channel and no
      deadline (context.Background and context.TODO). */
  function Background<K, V>(): (p: Parent<K, V>)
    ensures p.values == map[] && p.err.None? && p.done.None? && !p.deadline.ok
  {
    Parent(map[], None, None, DeadlineResult(0, false))
  }

  /** A context with no parent answers from its own map and reports no
      error, no done channel and no deadline. */
  method Orphan() returns (err: Option<Error>, done: Option<Channel>, deadline: DeadlineResult, v: Option<string>)
    ensures err.None? && done.None? && deadline == DeadlineResult(0, false)
    ensures v == Some("v")
  {
    var c := new Context<string, string>(None);
    c.Set("k", Some("v"));
    err, done, deadline := c.Err(), c.Done(), c.Deadline();
    v := c.Value("k");
  }

  /** A value set before Join is seen through the joined context, next to
      the new parent's own values; a value set through the joined context
      afterwards is seen through the original too. */
  method JoinShares() returns (key: Option<string>, ctxKey: Option<string>, later: Option<string>, shadowed: Option<string>)
    ensures key == Some("value")
    ensures ctxKey == Some("ctx-value")
    ensures later == Some("later-value")
    ensures shadowed == Some("ctx-value")
  {
    var b := new Context<string, string>(Some(Background()));
    b.Set("key", Some("value"));
    var ctx := Parent(map["ctx-key" := "ctx-value"], None, None, DeadlineResult(0, false));
    var joined := b.Join(ctx);
    key := joined.Value("key");
    ctxKey := joined.Value("ctx-key");
    joined.Set("later", Some("later-value"));
    later := b.Value("later");
    joined.Set("ctx-key", Some("local-value"));
    shadowed := joined.Value("ctx-key");
  }
}
