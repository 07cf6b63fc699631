/** The permission cache under concurrency: cached reads and service writes cut into their Redis and
    database steps, interleaved in any way. Every reader and writer is identified by a number. */
module CacheInterleaving {

  // Times are nanoseconds, as in time.Duration; the TTL is 24 hours.
  const TTL: nat := 24 * 3600 * 1_000_000_000

  /** One cache entry: the decoded row list and the instant at which Redis stops returning it. */
  datatype Entry<R> = Entry(rows: seq<R>, expiresAt: int)

  datatype ReaderPhase<R> =
    | Idle
    | Missed(key: string)                  // the Get found nothing; the database is next
    | Loaded(key: string, rows: seq<R>)    // rows in hand; the Set, if any, is next

  datatype WriterPhase = Resting | Writing(key: string)   // a row was written; the Del is next

  datatype State<R> = State(
    now: int,
    table: map<string, seq<R>>,
    cache: map<string, Entry<R>>,
    readers: map<nat, ReaderPhase<R>>,
    writers: map<nat, WriterPhase>)

  function Content<R>(s: State<R>, key: string): seq<R> {
    if key in s.table then s.table[key] else []
  }

  function Reader<R>(s: State<R>, r: nat): ReaderPhase<R> {
    if r in s.readers then s.readers[r] else Idle
  }

  function Writer<R>(s: State<R>, w: nat): WriterPhase {
    if w in s.writers then s.writers[w] else Resting
  }

  predicate Live<R(!new)>(s: State<R>, key: string) {
    key in s.cache && s.now < s.cache[key].expiresAt
  }

  datatype Action<R> =
    | Tick(elapsed: nat)
    | Hit(reader: nat, key: string)            // Get answers, the read returns
    | Miss(reader: nat, key: string)           // Get does not answer
    | Load(reader: nat)                        // the rows are read from the table
    | LoadFails(reader: nat)                   // that fails, and the read returns the error
    | ReturnEmpty(reader: nat)                 // no rows: returned, not cached
    | Store(reader: nat)                       // Set, the read returns
    | Write(writer: nat, key: string, rows: seq<R>)   // one statement that changes rows of the key
    | Abandon(writer: nat)                     // a later statement fails: the service returns without Del
    | Drop(writer: nat)                        // Del
    | Invalidate(key: string)                  // Del by the middleware's own invalidation functions

  ghost predicate Step<R(!new)>(s: State<R>, a: Action<R>, s': State<R>) {
    match a
    case Tick(elapsed) => s' == s.(now := s.now + elapsed)
    case Hit(r, k) => Reader(s, r).Idle? && Live(s, k) && s' == s
    case Miss(r, k) => Reader(s, r).Idle? && !Live(s, k) && s' == s.(readers := s.readers[r := Missed(k)])
    case Load(r) => Reader(s, r).Missed? &&
      s' == s.(readers := s.readers[r := Loaded(Reader(s, r).key, Content(s, Reader(s, r).key))])
    case LoadFails(r) => Reader(s, r).Missed? && s' == s.(readers := s.readers[r := Idle])
    case ReturnEmpty(r) => Reader(s, r).Loaded? && Reader(s, r).rows == [] && s' == s.(readers := s.readers[r := Idle])
    case Store(r) => Reader(s, r).Loaded? && Reader(s, r).rows != [] &&
      s' == s.(readers := s.readers[r := Idle],
               cache := s.cache[Reader(s, r).key := Entry(Reader(s, r).rows, s.now + TTL)])
    case Write(w, k, rows) => (Writer(s, w).Resting? || Writer(s, w) == Writing(k)) &&
      s' == s.(table := s.table[k := rows], writers := s.writers[w := Writing(k)])
    case Abandon(w) => Writer(s, w).Writing? && s' == s.(writers := s.writers[w := Resting])
    case Drop(w) => Writer(s, w).Writing? &&
      s' == s.(cache := s.cache - {Writer(s, w).key}, writers := s.writers[w := Resting])
    case Invalidate(k) => s' == s.(cache := s.cache - {k})
  }

  datatype Run<R> = Run(states: seq<State<R>>, actions: seq<Action<R>>)

  ghost predicate Valid<R(!new)>(run: Run<R>) {
    && |run.states| == |run.actions| + 1
    && run.states[0].cache == map[] && run.states[0].readers == map[] && run.states[0].writers == map[]
    && forall i :: 0 <= i < |run.actions| ==> Step(run.states[i], run.actions[i], run.states[i + 1])
  }

  /** Action n makes a read of `key` return `rows`. */
  ghost predicate Serves<R(!new)>(run: Run<R>, n: nat, key: string, rows: seq<R>)
    requires Valid(run)
  {
    n < |run.actions| &&
    var s := run.states[n];
    match run.actions[n]
    case Hit(r, k) => k == key && k in s.cache && s.cache[k].rows == rows
    case ReturnEmpty(r) => Reader(s, r) == Loaded(key, rows)
    case Store(r) => Reader(s, r) == Loaded(key, rows)
    case _ => false
  }

  /** Action n deletes the cache key. */
  ghost predicate Deletes<R(!new)>(run: Run<R>, n: nat, key: string)
    requires Valid(run) && n < |run.actions|
  {
    match run.actions[n]
    case Drop(w) => Writer(run.states[n], w) == Writing(key)
    case Invalidate(k) => k == key
    case _ => false
  }

  /** Reader r loaded the rows at action l and still holds them when action n is about to happen. */
  ghost predicate Holds<R(!new)>(run: Run<R>, r: nat, key: string, rows: seq<R>, l: nat, n: nat)
    requires Valid(run)
  {
    && l < n <= |run.actions|
    && run.actions[l] == Load(r) && Reader(run.states[l], r) == Missed(key)
    && Content(run.states[l], key) == rows
    && forall i :: l < i <= n ==> Reader(run.states[i], r) == Loaded(key, rows)
  }

  predicate Caches<R(==)>(s: State<R>, key: string, entry: Entry<R>) {
    key in s.cache && s.cache[key] == entry
  }

  /** Reader r, who loaded at l, stored the rows at action st; the entry is untouched up to state n. */
  ghost predicate StoredSince<R(!new)>(run: Run<R>, r: nat, key: string, rows: seq<R>, l: nat, st: nat, n: nat)
    requires Valid(run)
  {
    && st < n <= |run.actions|
    && Holds(run, r, key, rows, l, st) && run.actions[st] == Store(r)
    && (forall i :: st < i <= n ==> Caches(run.states[i], key, Entry(rows, run.states[st].now + TTL)))
    && (forall i :: st < i < n ==> !Deletes(run, i, key))
  }

  /******* Reads go on *******/

  /** The read that finds the key answers, the one that does not goes to the table, and whoever holds rows either
      stores them or, when there are none, returns without storing: there is always exactly one of the two. */
  lemma ReadGoesOn<R(!new)>(s: State<R>, r: nat, key: string)
    ensures Reader(s, r).Idle? ==>
      ((exists s' :: Step(s, Hit(r, key), s')) <==> !exists s' :: Step(s, Miss(r, key), s'))
    ensures Reader(s, r).Missed? ==> exists s' :: Step(s, Load(r), s')
    ensures Reader(s, r).Loaded? ==>
      ((exists s' :: Step(s, Store(r), s')) <==> !exists s' :: Step(s, ReturnEmpty(r), s'))
  {
    var p := Reader(s, r);
    match p
    case Idle =>
      assert Live(s, key) ==> Step(s, Hit(r, key), s);
      assert !Live(s, key) ==> Step(s, Miss(r, key), s.(readers := s.readers[r := Missed(key)]));
    case Missed(k) => assert Step(s, Load(r), s.(readers := s.readers[r := Loaded(k, Content(s, k))]));
    case Loaded(k, rows) =>
      var back := s.(readers := s.readers[r := Idle]);
      assert rows == [] ==> Step(s, ReturnEmpty(r), back);
      assert rows != [] ==> Step(s, Store(r), back.(cache := s.cache[k := Entry(rows, s.now + TTL)]));
  }

  /** An entry stored and neither deleted nor replaced answers every read for 24 hours, from then on none. */
  lemma EntryAnswersForADay<R(!new)>(run: Run<R>, r: nat, key: string, rows: seq<R>, l: nat, st: nat, n: nat)
    requires Valid(run) && StoredSince(run, r, key, rows, l, st, n)
    ensures Live(run.states[n], key) <==> run.states[n].now < run.states[st].now + 86_400_000_000_000
  {
    assert Caches(run.states[n], key, Entry(rows, run.states[st].now + TTL));
  }

  /** An entry stays until its own key is deleted or stored again. */
  lemma EntryStays<R(!new)>(run: Run<R>, n: nat, key: string, entry: Entry<R>)
    requires Valid(run) && n < |run.actions| && Caches(run.states[n], key, entry) && !Deletes(run, n, key)
    requires run.actions[n].Store? ==>
      var p := Reader(run.states[n], run.actions[n].reader); p.Loaded? ==> p.key != key
    ensures Caches(run.states[n + 1], key, entry)
  {
    assert Step(run.states[n], run.actions[n], run.states[n + 1]);
  }

  /******* Where rows come from *******/

  lemma {:induction false} HeldRowsWereLoaded<R(!new)>(run: Run<R>, n: nat, r: nat) returns (l: nat)
    requires Valid(run) && n <= |run.actions| && Reader(run.states[n], r).Loaded?
    ensures Holds(run, r, Reader(run.states[n], r).key, Reader(run.states[n], r).rows, l, n)
  {
    var s, a, s' := run.states[n - 1], run.actions[n - 1], run.states[n - 1 + 1];
    assert Step(s, a, s');
    if a == Load(r) {
      l := n - 1;
    } else {
      assert Reader(s, r) == Reader(s', r);
      l := HeldRowsWereLoaded(run, n - 1, r);
    }
  }

  lemma {:induction false} EntriesWereStored<R(!new)>(run: Run<R>, n: nat, key: string)
    returns (r: nat, l: nat, st: nat)
    requires Valid(run) && n <= |run.actions| && key in run.states[n].cache
    ensures StoredSince(run, r, key, run.states[n].cache[key].rows, l, st, n)
  {
    var s, a, s' := run.states[n - 1], run.actions[n - 1], run.states[n - 1 + 1];
    assert Step(s, a, s');
    if a.Store? && Reader(s, a.reader).key == key {
      r, st := a.reader, n - 1;
      l := HeldRowsWereLoaded(run, n - 1, r);
    } else {
      assert key in s.cache && s.cache[key] == s'.cache[key];
      assert !Deletes(run, n - 1, key);
      r, l, st := EntriesWereStored(run, n - 1, key);
      StoredLonger(run, r, key, s.cache[key].rows, l, st, n - 1);
    }
  }

  lemma StoredLonger<R(!new)>(run: Run<R>, r: nat, key: string, rows: seq<R>, l: nat, st: nat, n: nat)
    requires Valid(run) && StoredSince(run, r, key, rows, l, st, n) && n < |run.actions| && !Deletes(run, n, key)
    requires key in run.states[n].cache && Caches(run.states[n + 1], key, run.states[n].cache[key])
    ensures StoredSince(run, r, key, rows, l, st, n + 1)
  {
  }

  lemma {:induction false} TimeAdvances<R(!new)>(run: Run<R>, i: nat, j: nat)
    requires Valid(run) && i <= j <= |run.actions|
    ensures run.states[i].now <= run.states[j].now
  {
    if i < j {
      TimeAdvances(run, i, j - 1);
      assert Step(run.states[j - 1], run.actions[j - 1], run.states[j - 1 + 1]);
    }
  }

  /******* Bounded staleness *******/

  /** The rows returned by action n were the table's content at state l, when some reader loaded them;
      that reader let go of them at action st (by returning or by storing them), and n happens before the TTL
      has passed since. The gap between load and store is part of the age. */
  ghost predicate Provenance<R(!new)>(run: Run<R>, n: nat, key: string, rows: seq<R>, r: nat, l: nat, st: nat)
    requires Valid(run) && n < |run.actions|
  {
    && l < st <= n && Holds(run, r, key, rows, l, st)
    && run.states[n].now - run.states[l].now < 86_400_000_000_000 + (run.states[st].now - run.states[l].now)
  }

  /** In every interleaving, every served value was current no longer ago than the TTL of 24 hours, in
      nanoseconds, plus the load-to-store gap of the reader it came from. */
  lemma ServedRowsAreRecent<R(!new)>(run: Run<R>, n: nat, key: string, rows: seq<R>)
    requires Valid(run) && Serves(run, n, key, rows)
    ensures exists r: nat, l: nat, st: nat :: Provenance(run, n, key, rows, r, l, st)
  {
    var a, s := run.actions[n], run.states[n];
    assert Step(s, a, run.states[n + 1]);
    if a.Hit? {
      var r, l, st := EntriesWereStored(run, n, key);
      assert run.states[n].cache[key].expiresAt == run.states[st].now + TTL;
      assert Provenance(run, n, key, rows, r, l, st);
    } else {
      var l := HeldRowsWereLoaded(run, n, a.reader);
      assert Provenance(run, n, key, rows, a.reader, l, n);
    }
  }

  /** Reads quiesce: once a key's rows have not changed for the TTL plus the largest gap, every read of
      it returns the current rows, whatever races happened before. */
  lemma QuietKeysAreServedCurrent<R(!new)>(run: Run<R>, n: nat, key: string, rows: seq<R>, gap: nat, since: nat)
    requires Valid(run) && Serves(run, n, key, rows) && since <= n
    requires forall i :: since <= i <= n ==> Content(run.states[i], key) == Content(run.states[n], key)
    requires run.states[since].now + 86_400_000_000_000 + gap <= run.states[n].now
    requires forall r: nat, l: nat, st: nat, v :: Holds(run, r, key, v, l, st) ==>
      run.states[st].now - run.states[l].now <= gap
    ensures rows == Content(run.states[n], key)
  {
    ServedRowsAreRecent(run, n, key, rows);
    var r: nat, l: nat, st: nat :| Provenance(run, n, key, rows, r, l, st);
    if l < since {
      TimeAdvances(run, l, since);
      assert false;
    }
  }

  /******* Reads after an invalidation *******/

  /** Some reader loads the key no later than the write at w and stores it after the delete at d. */
  ghost predicate Straddles<R(!new)>(run: Run<R>, key: string, w: nat, d: nat)
    requires Valid(run)
  {
    exists r: nat, rows, l: nat, st: nat ::
      Holds(run, r, key, rows, l, st) && st < |run.actions| && l < w && d < st && run.actions[st] == Store(r)
  }

  /** The read that returns at n issued its Get after action d. */
  ghost predicate BeginsAfter<R(!new)>(run: Run<R>, n: nat, d: nat)
    requires Valid(run) && n < |run.actions|
  {
    match run.actions[n]
    case Hit(r, k) => d < n
    case Store(r) => ReaderStartedAfter(run, r, n, d)
    case ReturnEmpty(r) => ReaderStartedAfter(run, r, n, d)
    case _ => false
  }

  ghost predicate ReaderStartedAfter<R(!new)>(run: Run<R>, r: nat, n: nat, d: nat)
    requires Valid(run) && n < |run.actions|
  {
    exists m :: d < m < n && run.actions[m].Miss? && run.actions[m].reader == r
                && forall i :: m < i <= n ==> !Reader(run.states[i], r).Idle?
  }

  /** A write to the key at w is followed by a delete of the key at d. If no reader straddles the two,
      every read that begins after the delete returns what the table held at some state after the write:
      rows that were only there before are never served again. */
  lemma NoPreWriteRowsAfterDelete<R(!new)>(run: Run<R>, key: string, w: nat, d: nat, n: nat, rows: seq<R>)
    requires Valid(run) && w < d < n && n < |run.actions|
    requires run.actions[w].Write? && run.actions[w].key == key && Deletes(run, d, key)
    requires !Straddles(run, key, w, d)
    requires Serves(run, n, key, rows) && BeginsAfter(run, n, d)
    ensures exists l: nat :: w < l <= n && rows == Content(run.states[l], key)
  {
    var a, s := run.actions[n], run.states[n];
    assert Step(s, a, run.states[n + 1]);
    if a.Hit? {
      var r, l, st := EntriesWereStored(run, n, key);
      assert !(st < d);
      assert d < st;
      assert l >= w;
      assert l != w;
      assert rows == Content(run.states[l], key);
    } else {
      var l := HeldRowsWereLoaded(run, n, a.reader);
      var m :| d < m < n && run.actions[m].Miss? && run.actions[m].reader == a.reader
               && forall i :: m < i <= n ==> !Reader(run.states[i], a.reader).Idle?;
      assert Step(run.states[m], run.actions[m], run.states[m + 1]);
      assert m < l by {
        assert Reader(run.states[m], a.reader).Idle?;
        assert Reader(run.states[m + 1], a.reader).Missed?;
      }
      assert rows == Content(run.states[l], key);
    }
  }

  /** The run up to and including action st, followed by a hit of the key. */
  ghost function ThenHit<R>(run: Run<R>, st: nat, reader: nat, key: string): Run<R>
    requires st < |run.actions| && |run.states| == |run.actions| + 1
  {
    Run(run.states[..st + 2] + [run.states[st + 1]], run.actions[..st + 1] + [Hit(reader, key)])
  }

  lemma ThenHitIsValid<R(!new)>(run: Run<R>, st: nat, reader: nat, key: string)
    requires Valid(run) && st < |run.actions|
    requires Reader(run.states[st + 1], reader).Idle? && Live(run.states[st + 1], key)
    ensures Valid(ThenHit(run, st, reader, key))
  {
    var next := ThenHit(run, st, reader, key);
    forall i | 0 <= i < |next.actions| ensures Step(next.states[i], next.actions[i], next.states[i + 1]) {
      if i <= st {
        assert Step(run.states[i], run.actions[i], run.states[i + 1]);
      }
    }
  }

  /** Conversely, in every run in which a reader loads before a write and stores after its delete, a read
      that begins right after the store, and so after the delete, returns the rows from before the write. */
  lemma StraddlingReaderServesOldRows<R(!new)>(run: Run<R>, key: string, w: nat, d: nat, r: nat, rows: seq<R>, l: nat,
                                               st: nat)
    requires Valid(run) && st < |run.actions| && Holds(run, r, key, rows, l, st) && run.actions[st] == Store(r)
    requires l < w < d < st && run.actions[w].Write? && run.actions[w].key == key && Deletes(run, d, key)
    ensures var next := ThenHit(run, st, r, key);
      && Valid(next) && Serves(next, st + 1, key, rows) && BeginsAfter(next, st + 1, d)
      && l < w && rows == Content(next.states[l], key)
  {
    assert Step(run.states[st], run.actions[st], run.states[st + 1]);
    assert Reader(run.states[st], r) == Loaded(key, rows);
    ThenHitIsValid(run, st, r, key);
  }

  /** Load, write, delete, store: such runs exist for any nonempty old rows and any new ones. */
  ghost function StraddlingRun<R>(key: string, before: seq<R>, after: seq<R>): Run<R> {
    var t, t' := map[key := before], map[key := after];
    var w0, w1, w2 := map[], map[0 := Writing(key)], map[0 := Resting];
    Run([State(0, t, map[], map[], w0),
         State(0, t, map[], map[7 := Missed(key)], w0),
         State(0, t, map[], map[7 := Loaded(key, before)], w0),
         State(0, t', map[], map[7 := Loaded(key, before)], w1),
         State(0, t', map[], map[7 := Loaded(key, before)], w2),
         State(0, t', map[key := Entry(before, TTL)], map[7 := Idle], w2)],
        [Miss(7, key), Load(7), Write(0, key, after), Drop(0), Store(7)])
  }

  lemma StraddlingRunIsValid<R(!new)>(key: string, before: seq<R>, after: seq<R>)
    requires before != []
    ensures Valid(StraddlingRun(key, before, after))
  {
    var run := StraddlingRun(key, before, after);
    assert Step(run.states[0], run.actions[0], run.states[1]);
    assert Step(run.states[1], run.actions[1], run.states[2]);
    assert Step(run.states[2], run.actions[2], run.states[3]) by {
      assert run.states[2].table[key := after] == run.states[3].table;
    }
    assert Step(run.states[3], run.actions[3], run.states[4]);
    assert Step(run.states[4], run.actions[4], run.states[5]);
  }

  lemma StraddlingRunStraddles<R(!new)>(key: string, before: seq<R>, after: seq<R>)
    requires before != []
    ensures var run := StraddlingRun(key, before, after);
      Valid(run) && run.actions[2] == Write(0, key, after) && Deletes(run, 3, key) && Straddles(run, key, 2, 3)
  {
    var run := StraddlingRun(key, before, after);
    StraddlingRunIsValid(key, before, after);
    assert Holds(run, 7, key, before, 1, 4);
  }
}
