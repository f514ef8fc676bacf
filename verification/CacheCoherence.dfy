/**
 `@Cached` reads and `@CacheInvalidate` writes over one store: exactly when every
 cached read of every sequential run returns what calling the method would return.
 */
module CacheCoherence {
  import opened CacheKeys
  import opened Options

  /** A call: the object it is made on, its class's name, the method's, and the arguments. */
  datatype Call = Call(receiver: nat, className: string, methodName: string, args: seq<Json>)

  /** The `key` option: none, a fixed string, or a function of the arguments. */
  datatype KeyOption = Derive | Fixed(key: string) | Compute(f: seq<Json> -> string)

  /** `buildKey`: nothing in it looks at the receiver. */
  function BuildKey(key: KeyOption, c: Call): string {
    match key
    case Compute(f) => f(c.args)
    case Fixed(k) => k
    case Derive => DerivedKey(c.className, c.methodName, c.args)
  }

  /** The options of `@Cached`; the time to live shows up as entries that expire. */
  datatype Cached = Cached(key: KeyOption, tags: seq<string>, condition: Option<seq<Json> -> bool>)

  /** The options of `@CacheInvalidate`. */
  datatype Invalidation = Invalidation(key: Option<KeyOption>, tags: seq<string>, before: bool)

  datatype Entry<V> = Entry(value: V, tags: seq<string>)

  type Store<V> = map<string, Entry<V>>

  /** A cached read, an invalidating write that may throw, or an entry's expiry. */
  datatype Op = Read(call: Call) | Write(call: Call, throws: bool) | Expire(key: string)

  /**
   The application: which calls are cached reads and invalidating writes, how each is
   decorated, what a read computes from the data (None for null), what a write does to it.
   */
  datatype App<!Db, !V> = App(isRead: Call -> bool, decorator: Call -> Cached, compute: (Db, Call) -> Option<V>,
                              isWrite: Call -> bool, invalidation: Call -> Invalidation, effect: (Db, Call) -> Db)

  function KeyOf<Db, V>(app: App<Db, V>, c: Call): string {
    BuildKey(app.decorator(c).key, c)
  }

  /** The call goes through the store: it has no condition, or meets it. */
  predicate Cacheable<Db, V>(app: App<Db, V>, c: Call) {
    app.isRead(c) && (app.decorator(c).condition.Some? ==> app.decorator(c).condition.value(c.args))
  }

  // ----- The wrappers, on values -----

  datatype State<Db, V> = State(db: Db, store: Store<V>)

  /** What a read returns, and the store behind it. */
  function ReadOf<Db, V>(app: App<Db, V>, st: State<Db, V>, c: Call): (Option<V>, Store<V>)
    requires app.isRead(c)
  {
    var direct, key := app.compute(st.db, c), KeyOf(app, c);
    if !Cacheable(app, c) then (direct, st.store)
    else if key in st.store then (Some(st.store[key].value), st.store)
    else if direct.Some? then (direct, st.store[key := Entry(direct.value, app.decorator(c).tags)])
    else (direct, st.store)
  }

  /** The entry goes with its key, or with any of its tags. */
  predicate Dropped<V>(invalidation: Invalidation, write: Call, key: string, e: Entry<V>) {
    || (invalidation.key.Some? && BuildKey(invalidation.key.value, write) == key)
    || exists tag :: tag in invalidation.tags && tag in e.tags
  }

  function Invalidated<V>(invalidation: Invalidation, write: Call, store: Store<V>): Store<V> {
    map k | k in store && !Dropped(invalidation, write, k, store[k]) :: store[k]
  }

  /** The state after a write: one that throws changed no data, and drops entries only if it does so beforehand. */
  function AfterWrite<Db, V>(app: App<Db, V>, st: State<Db, V>, c: Call, throws: bool): State<Db, V> {
    var dropped := Invalidated(app.invalidation(c), c, st.store);
    if throws then State(st.db, if app.invalidation(c).before then dropped else st.store)
    else State(app.effect(st.db, c), dropped)
  }

  predicate Legal<Db, V>(app: App<Db, V>, op: Op) {
    match op
    case Read(c) => app.isRead(c)
    case Write(c, _) => app.isWrite(c)
    case Expire(_) => true
  }

  predicate AllLegal<Db, V>(app: App<Db, V>, ops: seq<Op>) {
    forall op :: op in ops ==> Legal(app, op)
  }

  function Next<Db, V>(app: App<Db, V>, st: State<Db, V>, op: Op): State<Db, V>
    requires Legal(app, op)
  {
    match op
    case Read(c) => st.(store := ReadOf(app, st, c).1)
    case Write(c, throws) => AfterWrite(app, st, c, throws)
    case Expire(key) => st.(store := st.store - {key})
  }

  /** What the operation returns: a read's value. */
  function Answer<Db, V>(app: App<Db, V>, st: State<Db, V>, op: Op): Option<V>
    requires Legal(app, op)
  {
    if op.Read? then ReadOf(app, st, op.call).0 else None
  }

  function RunTo<Db, V>(app: App<Db, V>, st: State<Db, V>, ops: seq<Op>): State<Db, V>
    requires AllLegal(app, ops)
  {
    if ops == [] then st
    else
      assert ops[|ops| - 1] in ops;
      Next(app, RunTo(app, st, ops[..|ops| - 1]), ops[|ops| - 1])
  }

  /** The data that the direct calls alone would leave: the store has no part in it. */
  function Data<Db, V>(app: App<Db, V>, db: Db, ops: seq<Op>): Db {
    if ops == [] then db
    else
      var before, op := Data(app, db, ops[..|ops| - 1]), ops[|ops| - 1];
      if op.Write? && !op.throws then app.effect(before, op.call) else before
  }

  class CachedApp<Db(!new), V(==, !new)> {
    const app: App<Db, V>
    var db: Db
    var entries: Store<V>

    constructor (app: App<Db, V>, db: Db)
      ensures this.app == app && View() == State(db, map[])
    {
      this.app, this.db := app, db;
      entries := map[];
    }

    ghost function View(): State<Db, V>
      reads this
    {
      State(db, entries)
    }

    /**
     The wrapper `@Cached` puts around a read. A call that does not meet the condition has
     nothing to do with the store; any other returns what the store holds under its key, or
     else what the method returns, which is stored with the tags unless it is null.
     */
    method CachedRead(c: Call) returns (result: Option<V>)
      requires app.isRead(c)
      modifies this`entries
      ensures (result, entries) == ReadOf(app, old(View()), c)
      ensures !MeetsCondition(c) ==> result == app.compute(db, c) && entries == old(entries)
      ensures MeetsCondition(c) ==>
                var key := BuildKey(app.decorator(c).key, c);
                if key in old(entries) then result == Some(old(entries)[key].value) && entries == old(entries)
                else
                  && result == app.compute(db, c)
                  && entries == if result == None then old(entries)
                                else old(entries)[key := Entry(result.value, app.decorator(c).tags)]
    {
      var options := app.decorator(c);
      if options.condition.Some? && !options.condition.value(c.args) {
        return app.compute(db, c);
      }
      var key := BuildKey(options.key, c);
      if key in entries {
        return Some(entries[key].value);
      }
      result := app.compute(db, c);
      if result.Some? {
        entries := entries[key := Entry(result.value, options.tags)];
      }
    }

    ghost predicate MeetsCondition(c: Call) {
      match app.decorator(c).condition
      case None => true
      case Some(holds) => holds(c.args)
    }

    /** The store drops the key, then every entry of each tag, and nothing else. */
    method Invalidate(invalidation: Invalidation, c: Call)
      modifies this`entries
      ensures entries == Invalidated(invalidation, c, old(entries))
      ensures forall k :: k in entries ==> k in old(entries) && entries[k] == old(entries)[k]
      ensures forall k :: k in old(entries) && k !in entries <==>
                && k in old(entries)
                && (|| (exists key :: invalidation.key == Some(key) && k == BuildKey(key, c))
                    || exists tag :: tag in invalidation.tags && tag in old(entries)[k].tags)
    {
      if invalidation.key.Some? {
        entries := entries - {BuildKey(invalidation.key.value, c)};
      }
      ghost var kept := entries;
      for i := 0 to |invalidation.tags|
        invariant entries == map k | k in kept
                  && (forall j :: 0 <= j < i ==> invalidation.tags[j] !in kept[k].tags) :: kept[k]
      {
        entries := map k | k in entries && invalidation.tags[i] !in entries[k].tags :: entries[k];
      }
    }

    /**
     The wrapper `@CacheInvalidate` puts around a write; a write that throws changed nothing.
     Entries are dropped after a write that succeeds, and before one that is so decorated.
     */
    method InvalidatingWrite(c: Call, throws: bool) returns (threw: bool)
      modifies this`db, this`entries
      ensures threw == throws && View() == AfterWrite(app, old(View()), c, throws)
      ensures db == if throws then old(db) else app.effect(old(db), c)
      ensures throws && !app.invalidation(c).before ==> entries == old(entries)
      ensures !throws || app.invalidation(c).before ==>
                entries == Invalidated(app.invalidation(c), c, old(entries))
    {
      var invalidation := app.invalidation(c);
      if invalidation.before {
        Invalidate(invalidation, c);
      }
      if throws {
        return true;
      }
      db := app.effect(db, c);
      if !invalidation.before {
        Invalidate(invalidation, c);
      }
      threw := false;
    }

    /**
     Any sequence of reads, writes and expiries. From an empty store, if shared keys mean
     equal results and the writes cover, every read is what the direct call would return.
     */
    method Session(ops: seq<Op>) returns (results: seq<Option<V>>)
      requires AllLegal(app, ops)
      modifies this`db, this`entries
      ensures View() == RunTo(app, old(View()), ops)
      ensures |results| == |ops| && Answers(app, old(View()), ops, results)
      ensures old(entries) == map[] && KeysSeparate(app) && WritesCover(app) ==>
                RightResults(app, old(db), ops, results)
    {
      results := [];
      ghost var start := View();
      assert ops[..|ops|] == ops && ops[..0] == [];
      assert RunTo(app, start, ops[..0]) == start && Answers(app, start, ops, results);
      hide RunTo, Next, Answer, KeysSeparate, WritesCover, Data, Legal, Answers, RightResults;
      for n := 0 to |ops|
        invariant View() == RunTo(app, start, ops[..n]) && |results| == n && Answers(app, start, ops, results)
      {
        RunOneMore(app, start, ops, n);
        var result := Perform(ops[n]);
        AnswersMore(app, start, ops, results, result);
        results := results + [result];
      }
      if start.store == map[] && KeysSeparate(app) && WritesCover(app) {
        RightSession(app, start.db, ops, results);
      }
    }

    /** One operation. */
    method Perform(op: Op) returns (result: Option<V>)
      requires Legal(app, op)
      modifies this`db, this`entries
      ensures View() == Next(app, old(View()), op) && result == Answer(app, old(View()), op)
    {
      hide ReadOf, AfterWrite;
      result := None;
      match op {
        case Read(c) =>
          result := CachedRead(c);
        case Write(c, throws) =>
          var threw := InvalidatingWrite(c, throws);
        case Expire(key) =>
          entries := entries - {key};
      }
    }
  }

  /** Each result is the answer in the state that the operations in front of it led to. */
  ghost predicate Answers<Db, V>(app: App<Db, V>, st: State<Db, V>, ops: seq<Op>, results: seq<Option<V>>)
    requires AllLegal(app, ops) && |results| <= |ops|
  {
    forall i :: 0 <= i < |results| ==> results[i] == Answer(app, RunTo(app, st, ops[..i]), ops[i])
  }

  /** Each read's result is what the direct call would have returned. */
  ghost predicate RightResults<Db, V>(app: App<Db, V>, db: Db, ops: seq<Op>, results: seq<Option<V>>)
    requires |results| == |ops|
  {
    forall i :: 0 <= i < |ops| && ops[i].Read? ==> results[i] == app.compute(Data(app, db, ops[..i]), ops[i].call)
  }

  lemma AnswersMore<Db, V>(app: App<Db, V>, st: State<Db, V>, ops: seq<Op>, results: seq<Option<V>>, result: Option<V>)
    requires AllLegal(app, ops) && |results| < |ops| && Answers(app, st, ops, results)
    requires Legal(app, ops[|results|]) && result == Answer(app, RunTo(app, st, ops[..|results|]), ops[|results|])
    ensures Answers(app, st, ops, results + [result])
  {
    hide Answer, RunTo, Legal;
  }

  lemma RightSession<Db(!new), V>(app: App<Db, V>, db: Db, ops: seq<Op>, results: seq<Option<V>>)
    requires AllLegal(app, ops) && |results| == |ops| && Answers(app, State(db, map[]), ops, results)
    requires KeysSeparate(app) && WritesCover(app)
    ensures RightResults(app, db, ops, results)
  {
    hide KeysSeparate, WritesCover, RunTo, Data, Answer;
    SeparateIsRight(app, db, ops);
    forall i | 0 <= i < |ops| && ops[i].Read?
      ensures results[i] == app.compute(Data(app, db, ops[..i]), ops[i].call)
    {
      assert RightAt(app, db, ops, i);
    }
  }

  lemma RunOneMore<Db, V>(app: App<Db, V>, st: State<Db, V>, ops: seq<Op>, n: nat)
    requires AllLegal(app, ops) && n < |ops|
    ensures Legal(app, ops[n]) && RunTo(app, st, ops[..n + 1]) == Next(app, RunTo(app, st, ops[..n]), ops[n])
  {
    assert ops[n] in ops && ops[..n + 1][..n] == ops[..n];
    hide Legal, Next;
  }

  // ----- When every read is right -----

  /** Each read of the run returns what calling the method directly would return at that point. */
  ghost predicate RightRun<Db, V>(app: App<Db, V>, db: Db, ops: seq<Op>)
    requires AllLegal(app, ops)
  {
    forall i :: 0 <= i < |ops| && ops[i].Read? ==> RightAt(app, db, ops, i)
  }

  ghost predicate RightAt<Db, V>(app: App<Db, V>, db: Db, ops: seq<Op>, i: nat)
    requires AllLegal(app, ops) && i < |ops| && ops[i].Read?
  {
    Answer(app, RunTo(app, State(db, map[]), ops[..i]), ops[i]) == app.compute(Data(app, db, ops[..i]), ops[i].call)
  }

  /** So does every read of every run, from any data and an empty store. */
  ghost predicate AlwaysRight<Db(!new), V>(app: App<Db, V>) {
    forall db, ops :: AllLegal(app, ops) ==> RightRun(app, db, ops)
  }

  /** Cacheable calls that share a key compute the same, on any data. */
  ghost predicate KeysSeparate<Db(!new), V>(app: App<Db, V>) {
    forall c, d, db :: Cacheable(app, c) && Cacheable(app, d) && KeyOf(app, c) == KeyOf(app, d) ==>
      app.compute(db, c) == app.compute(db, d)
  }

  /** The write's invalidation drops what the call would store. */
  ghost predicate Drops<Db, V>(app: App<Db, V>, write: Call, c: Call) {
    var invalidation := app.invalidation(write);
    || (invalidation.key.Some? && BuildKey(invalidation.key.value, write) == KeyOf(app, c))
    || exists tag :: tag in invalidation.tags && tag in app.decorator(c).tags
  }

  /** It drops every cacheable read whose value the write changes. */
  ghost predicate Covers<Db(!new), V>(app: App<Db, V>, write: Call) {
    forall db, c :: Cacheable(app, c) && Changes(app, db, write, c) ==> Drops(app, write, c)
  }

  ghost predicate Changes<Db, V>(app: App<Db, V>, db: Db, write: Call, c: Call) {
    app.compute(db, c).Some? && app.compute(app.effect(db, write), c) != app.compute(db, c)
  }

  ghost predicate WritesCover<Db(!new), V>(app: App<Db, V>) {
    forall write :: app.isWrite(write) ==> Covers(app, write)
  }

  /** Some call with this key stored the entry, and would compute the same now. */
  ghost predicate Backed<Db, V>(app: App<Db, V>, db: Db, key: string, e: Entry<V>) {
    exists d :: Cacheable(app, d) && KeyOf(app, d) == key && app.decorator(d).tags == e.tags
                && app.compute(db, d) == Some(e.value)
  }

  ghost predicate Coherent<Db, V>(app: App<Db, V>, st: State<Db, V>) {
    forall k :: k in st.store ==> Backed(app, st.db, k, st.store[k])
  }

  lemma ReadKeeps<Db(!new), V>(app: App<Db, V>, st: State<Db, V>, c: Call)
    requires KeysSeparate(app) && Coherent(app, st) && app.isRead(c)
    ensures Coherent(app, st.(store := ReadOf(app, st, c).1))
    ensures ReadOf(app, st, c).0 == app.compute(st.db, c)
  {
    var key := KeyOf(app, c);
    if Cacheable(app, c) {
      if key in st.store {
        assert Backed(app, st.db, key, st.store[key]);
      } else if app.compute(st.db, c).Some? {
        assert Backed(app, st.db, key, Entry(app.compute(st.db, c).value, app.decorator(c).tags));
      }
    }
  }

  lemma WriteKeeps<Db(!new), V>(app: App<Db, V>, st: State<Db, V>, c: Call, throws: bool)
    requires Covers(app, c) && Coherent(app, st)
    ensures Coherent(app, AfterWrite(app, st, c, throws))
  {
    var after := AfterWrite(app, st, c, throws);
    forall k | k in after.store
      ensures Backed(app, after.db, k, after.store[k])
    {
      assert Backed(app, st.db, k, st.store[k]);
      var d :| Cacheable(app, d) && KeyOf(app, d) == k && app.decorator(d).tags == st.store[k].tags
               && app.compute(st.db, d) == Some(st.store[k].value);
      if !throws {
        assert !Drops(app, c, d);
        assert !Changes(app, st.db, c, d);
      }
    }
  }

  /** The data of a run is that of the direct calls, and its store stays coherent. */
  lemma {:induction false} RunKeeps<Db(!new), V>(app: App<Db, V>, db: Db, ops: seq<Op>)
    requires KeysSeparate(app) && WritesCover(app) && AllLegal(app, ops)
    ensures var st := RunTo(app, State(db, map[]), ops);
      st.db == Data(app, db, ops) && Coherent(app, st)
  {
    hide KeysSeparate, ReadOf, Cacheable, Covers, Backed, Invalidated;
    if ops != [] {
      var init, op := ops[..|ops| - 1], ops[|ops| - 1];
      assert op in ops;
      RunKeeps(app, db, init);
      var st := RunTo(app, State(db, map[]), init);
      match op {
        case Read(c) => ReadKeeps(app, st, c);
        case Write(c, throws) => WriteKeeps(app, st, c, throws);
        case Expire(_) =>
      }
    }
  }

  lemma SeparateIsRight<Db(!new), V>(app: App<Db, V>, db: Db, ops: seq<Op>)
    requires KeysSeparate(app) && WritesCover(app) && AllLegal(app, ops)
    ensures RightRun(app, db, ops)
  {
    hide KeysSeparate, WritesCover, ReadOf, RunTo, Data, Coherent;
    forall i | 0 <= i < |ops| && ops[i].Read?
      ensures RightAt(app, db, ops, i)
    {
      assert ops[i] in ops;
      RunKeeps(app, db, ops[..i]);
      ReadKeeps(app, RunTo(app, State(db, map[]), ops[..i]), ops[i].call);
    }
  }

  /**
   Two calls that share a key and differ: read one after the other, in one order or the other, the
   second is wrong.
   */
  lemma SharedKeyWrong<Db(!new), V>(app: App<Db, V>, c: Call, d: Call, db: Db)
    requires Cacheable(app, c) && Cacheable(app, d) && KeyOf(app, c) == KeyOf(app, d)
    requires app.compute(db, c).Some? && app.compute(db, c) != app.compute(db, d)
    ensures !RightRun(app, db, [Read(c), Read(d)])
  {
    var ops, start := [Read(c), Read(d)], State(db, map[]);
    assert ops[..1] == [Read(c)] && ops[..1][..0] == [];
    assert RunTo(app, start, []) == start && Data(app, db, []) == db;
    assert RunTo(app, start, ops[..1]) == Next(app, start, Read(c));
    assert Data(app, db, ops[..1]) == db;
    assert !RightAt(app, db, ops, 1);
  }

  /** A write that does not cover a read it changes: the read behind it is stale. */
  lemma UncoveredWrong<Db(!new), V>(app: App<Db, V>, write: Call, c: Call, db: Db)
    requires app.isWrite(write) && Cacheable(app, c) && Changes(app, db, write, c) && !Drops(app, write, c)
    ensures !RightRun(app, db, [Read(c), Write(write, false), Read(c)])
  {
    var ops, start := [Read(c), Write(write, false), Read(c)], State(db, map[]);
    assert ops[..2] == [Read(c), Write(write, false)] && ops[..2][..1] == [Read(c)] && [Read(c)][..0] == [];
    assert RunTo(app, start, []) == start && Data(app, db, []) == db;
    var read := Next(app, start, Read(c));
    assert RunTo(app, start, [Read(c)]) == read && Data(app, db, [Read(c)]) == db;
    assert RunTo(app, start, ops[..2]) == AfterWrite(app, read, write, false);
    assert Data(app, db, ops[..2]) == app.effect(db, write);
    assert !RightAt(app, db, ops, 2);
  }

  /**
   Exactly when every read of every run is right: cacheable calls that share a key compute
   the same, and every write drops the cacheable reads it changes.
   */
  lemma AlwaysRightIff<Db(!new), V>(app: App<Db, V>)
    ensures AlwaysRight(app) <==> KeysSeparate(app) && WritesCover(app)
  {
    hide Cacheable, RightRun, Changes, Drops, KeyOf;
    if KeysSeparate(app) && WritesCover(app) {
      forall db, ops | AllLegal(app, ops)
        ensures RightRun(app, db, ops)
      {
        SeparateIsRight(app, db, ops);
      }
    }
    if AlwaysRight(app) {
      forall c, d, db | Cacheable(app, c) && Cacheable(app, d) && KeyOf(app, c) == KeyOf(app, d)
        ensures app.compute(db, c) == app.compute(db, d)
      {
        RightOrder(app, c, d, db);
        RightOrder(app, d, c, db);
      }
      forall write | app.isWrite(write)
        ensures Covers(app, write)
      {
        forall db, c | Cacheable(app, c) && Changes(app, db, write, c)
          ensures Drops(app, write, c)
        {
          RightBehind(app, write, c, db);
        }
      }
    }
  }

  lemma RightOrder<Db(!new), V>(app: App<Db, V>, c: Call, d: Call, db: Db)
    requires AlwaysRight(app) && Cacheable(app, c) && Cacheable(app, d) && KeyOf(app, c) == KeyOf(app, d)
    ensures app.compute(db, c).Some? ==> app.compute(db, c) == app.compute(db, d)
  {
    var ops := [Read(c), Read(d)];
    assert AllLegal(app, ops);
    hide RightRun, KeyOf;
    if app.compute(db, c).Some? && app.compute(db, c) != app.compute(db, d) {
      SharedKeyWrong(app, c, d, db);
      assert false;
    }
  }

  lemma RightBehind<Db(!new), V>(app: App<Db, V>, write: Call, c: Call, db: Db)
    requires AlwaysRight(app) && app.isWrite(write) && Cacheable(app, c) && Changes(app, db, write, c)
    ensures Drops(app, write, c)
  {
    var ops := [Read(c), Write(write, false), Read(c)];
    assert AllLegal(app, ops);
    hide RightRun, Drops, Changes;
    if !Drops(app, write, c) {
      UncoveredWrong(app, write, c, db);
      assert false;
    }
  }

  // ----- Derived keys -----

  /** One class name, one method, and arguments equal up to object key order; the receivers may differ. */
  ghost predicate SameCall(c: Call, d: Call) {
    c.className == d.className && c.methodName == d.methodName && SameArgs(c.args, d.args)
  }

  /** Every cached read derives its key, from JSON arguments. */
  ghost predicate DerivesKeys<Db, V>(app: App<Db, V>) {
    forall c :: app.isRead(c) ==>
      app.decorator(c).key == Derive && IsIdentifier(c.className) && IsIdentifier(c.methodName) && ValidArgs(c.args)
  }

  /**
   Derived keys separate calls exactly when what a cacheable read returns depends neither
   on the object it is called on, nor on which class of that name, nor on object key order.
   */
  lemma DerivedKeysSeparateIff<Db(!new), V>(app: App<Db, V>)
    requires DerivesKeys(app)
    ensures KeysSeparate(app) <==>
              forall c, d, db :: Cacheable(app, c) && Cacheable(app, d) && SameCall(c, d) ==>
                app.compute(db, c) == app.compute(db, d)
  {
    forall c, d | Cacheable(app, c) && Cacheable(app, d)
      ensures KeyOf(app, c) == KeyOf(app, d) <==> SameCall(c, d)
    {
      DerivedKeyIff(c.className, c.methodName, c.args, d.className, d.methodName, d.args);
    }
    hide KeyOf, SameCall, Cacheable;
  }

  // ----- Two instances -----

  /** A class whose objects hold a number, and a cached method that returns it. */
  function Counters(): App<int, nat> {
    App((c: Call) => c.className == "Counter" && c.methodName == "count" && c.args == [],
        (c: Call) => Cached(Derive, [], None),
        (db: int, c: Call) => Some(c.receiver),
        (c: Call) => false, (c: Call) => Invalidation(None, [], false), (db: int, c: Call) => db)
  }

  function CountOf(receiver: nat): Op {
    Read(Call(receiver, "Counter", "count", []))
  }

  /** Two objects of one class share an entry: the second's read returns the first one's value. */
  lemma TwoInstances(a: nat, b: nat, db: int)
    requires a != b
    ensures var app, ops := Counters(), [CountOf(a), CountOf(b)];
      && AllLegal(app, ops) && WritesCover(app)
      && Answer(app, RunTo(app, State(db, map[]), ops[..1]), ops[1]) == Some(a)
      && app.compute(db, ops[1].call) == Some(b)
      && !AlwaysRight(app)
  {
    var app, ops, start := Counters(), [CountOf(a), CountOf(b)], State(db, map[]);
    assert ops[..1] == [CountOf(a)] && ops[..1][..0] == [];
    assert RunTo(app, start, []) == start;
    assert RunTo(app, start, ops[..1]) == Next(app, start, CountOf(a));
    SharedKeyWrong(app, CountOf(a).call, CountOf(b).call, db);
  }
}
