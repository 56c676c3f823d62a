/** The in-memory sutta catalogue: filled once from the sample texts, then read by id, at
    random, or as a list with the newest entries first. Timestamps are modelled as integer
    milliseconds (what `new Date(created_at).getTime()` yields); the clock readings taken while
    filling the catalogue are an input. */
module Catalog {
  import opened Wrappers

  datatype Sutta = Sutta(
    id: int, title: string, content: string,
    source: Option<string>, category: Option<string>, createdAt: int)

  /** One of the sample texts the catalogue is filled from. */
  datatype Sample = Sample(title: string, content: string, source: Option<string>, category: Option<string>)

  datatype Db = Db(suttas: seq<Sutta>, initialized: bool)

  /** "Database not initialized". */
  datatype DbError = NotInitialized

  const EmptyDb := Db([], false)

  /** `initDatabase`: a no-op once initialised; otherwise entry i of the samples becomes the
      sutta with id i + 1, stamped with the clock reading taken for it. */
  function InitDatabase(db: Db, samples: seq<Sample>, clock: seq<int>): (r: Db)
    requires |clock| == |samples|
    ensures db.initialized ==> r == db
    ensures r.initialized
    ensures !db.initialized ==> |r.suttas| == |samples|
    ensures !db.initialized ==> forall i :: 0 <= i < |r.suttas| && i < |samples| ==>
      r.suttas[i] == Sutta(i + 1, samples[i].title, samples[i].content, samples[i].source, samples[i].category, clock[i])
  {
    if db.initialized then db
    else Db(seq(|samples|, i requires 0 <= i < |samples| =>
              Sutta(i + 1, samples[i].title, samples[i].content, samples[i].source, samples[i].category, clock[i])),
            true)
  }

  /** Ids are distinct. */
  predicate DistinctIds(suttas: seq<Sutta>) {
    forall i, j :: 0 <= i < j < |suttas| ==> suttas[i].id != suttas[j].id
  }

  /** Initialising twice is initialising once, whatever the second call is given, and a fresh
      catalogue has distinct ids. */
  lemma InitDatabaseIdempotent(db: Db, samples: seq<Sample>, clock: seq<int>, samples2: seq<Sample>, clock2: seq<int>)
    requires |clock| == |samples| && |clock2| == |samples2|
    ensures InitDatabase(InitDatabase(db, samples, clock), samples2, clock2) == InitDatabase(db, samples, clock)
    ensures !db.initialized ==> DistinctIds(InitDatabase(db, samples, clock).suttas)
  {
  }

  /** The position of the first sutta with the given id, searching from i. */
  function FindFrom(suttas: seq<Sutta>, id: int, i: nat): (k: Option<nat>)
    requires i <= |suttas|
    ensures k.Some? ==> i <= k.value < |suttas| && suttas[k.value].id == id
    ensures k.Some? ==> forall j :: i <= j < k.value ==> suttas[j].id != id
    ensures k.None? ==> forall j :: i <= j < |suttas| ==> suttas[j].id != id
    decreases |suttas| - i
  {
    if i == |suttas| then None
    else if suttas[i].id == id then Some(i)
    else FindFrom(suttas, id, i + 1)
  }

  /** Position k holds the first sutta with this id. */
  predicate FirstWithId(suttas: seq<Sutta>, id: int, k: int) {
    0 <= k < |suttas| && suttas[k].id == id && forall j :: 0 <= j < k ==> suttas[j].id != id
  }

  /** `getSutta(id)`: the first sutta with that id, or none. */
  function GetSutta(db: Db, id: int): (r: Result<Option<Sutta>, DbError>)
    ensures !db.initialized <==> r == Err(NotInitialized)
    ensures r.Ok? && r.value.Some? ==> r.value.value in db.suttas && r.value.value.id == id
    ensures r.Ok? && r.value.Some? ==> exists k :: FirstWithId(db.suttas, id, k) && db.suttas[k] == r.value.value
    ensures r.Ok? && r.value.None? ==> forall s :: s in db.suttas ==> s.id != id
  {
    if !db.initialized then Err(NotInitialized)
    else
      var k := FindFrom(db.suttas, id, 0);
      if k.Some? then Ok(Some(db.suttas[k.value])) else Ok(None)
  }

  /** After initialisation, id i finds sample i - 1 and any other id finds nothing. */
  lemma GetSuttaAfterInit(samples: seq<Sample>, clock: seq<int>, id: int)
    requires |clock| == |samples|
    ensures var db := InitDatabase(EmptyDb, samples, clock);
      && (1 <= id <= |samples| ==> GetSutta(db, id) == Ok(Some(db.suttas[id - 1])))
      && (!(1 <= id <= |samples|) ==> GetSutta(db, id) == Ok(None))
  {
    var db := InitDatabase(EmptyDb, samples, clock);
    if 1 <= id <= |samples| {
      var k := FindFrom(db.suttas, id, 0);
      assert db.suttas[id - 1].id == id;
      if k.Some? {
        assert db.suttas[k.value].id == k.value + 1;
      }
    } else {
      assert forall s :: s in db.suttas ==> s.id != id;
    }
  }

  /** `Math.floor(random * n)` for a `random` in [0, 1): always a valid index. */
  function PickIndex(random: real, n: nat): (k: nat)
    requires 0.0 <= random < 1.0 && n > 0
    ensures k < n
  {
    ScaledBelow(random, n);
    (random * n as real).Floor
  }

  lemma ProductPositive(a: real, b: real)
    requires a > 0.0 && b > 0.0
    ensures a * b > 0.0
  {
  }

  lemma ScaledBelow(x: real, n: nat)
    requires 0.0 <= x < 1.0 && n > 0
    ensures 0 <= (x * n as real).Floor < n
  {
    var y := x * n as real;
    ProductPositive(1.0 - x, n as real);
    assert n as real - y == (1.0 - x) * n as real;
    assert y < n as real;
    var f := y.Floor;
    assert f as real <= y;
  }

  /** `getRandomSutta` with `random` the value `Math.random()` returned: the entry at the
      picked index, or none for an empty catalogue. */
  function GetRandomSutta(db: Db, random: real): (r: Result<Option<Sutta>, DbError>)
    requires 0.0 <= random < 1.0
    ensures !db.initialized <==> r == Err(NotInitialized)
    ensures r.Ok? ==> (r.value.None? <==> |db.suttas| == 0)
    ensures r.Ok? && r.value.Some? ==> r.value.value in db.suttas
  {
    if !db.initialized then Err(NotInitialized)
    else if |db.suttas| == 0 then Ok(None)
    else Ok(Some(db.suttas[PickIndex(random, |db.suttas|)]))
  }

  /** Every index can come up: the random value k / n picks index k. */
  lemma EveryIndexReachable(k: nat, n: nat)
    requires k < n
    ensures 0.0 <= k as real / n as real < 1.0
    ensures PickIndex(k as real / n as real, n) == k
  {
    var q := k as real / n as real;
    assert q * n as real == k as real;
  }

  /** Hence every entry of a non-empty catalogue can be the random one. */
  lemma EveryEntryReachable(db: Db, k: nat)
    requires db.initialized && k < |db.suttas|
    ensures 0.0 <= k as real / |db.suttas| as real < 1.0
    ensures GetRandomSutta(db, k as real / |db.suttas| as real) == Ok(Some(db.suttas[k]))
  {
    EveryIndexReachable(k, |db.suttas|);
  }

  /** Newest first: `created_at` never increases along the sequence. */
  predicate NewestFirst(s: seq<Sutta>) {
    forall i, j :: 0 <= i < j < |s| ==> s[i].createdAt >= s[j].createdAt
  }

  /** Places a sutta into a newest-first sequence after every entry at least as new. */
  function Insert(x: Sutta, s: seq<Sutta>): seq<Sutta>
    decreases |s|
  {
    if |s| == 0 then [x]
    else if s[0].createdAt >= x.createdAt then [s[0]] + Insert(x, s[1..])
    else [x] + s
  }

  /** The comparator sort of `getAllSuttas`, newest first. `Array.prototype.sort` is stable,
      which inserting each entry after the equally new ones reproduces. */
  function SortNewestFirst(s: seq<Sutta>): seq<Sutta>
    decreases |s|
  {
    if |s| == 0 then [] else Insert(s[|s| - 1], SortNewestFirst(s[..|s| - 1]))
  }

  /** The entries stamped with time t, in order. */
  function At(s: seq<Sutta>, t: int): seq<Sutta>
    decreases |s|
  {
    if |s| == 0 then []
    else if s[0].createdAt == t then [s[0]] + At(s[1..], t)
    else At(s[1..], t)
  }

  lemma {:induction false} InsertPermutes(x: Sutta, s: seq<Sutta>)
    ensures multiset(Insert(x, s)) == multiset(s) + multiset{x}
    decreases |s|
  {
    if |s| > 0 && s[0].createdAt >= x.createdAt {
      InsertPermutes(x, s[1..]);
      assert s == [s[0]] + s[1..];
    }
  }

  lemma {:induction false} InsertKeepsOrder(x: Sutta, s: seq<Sutta>)
    requires NewestFirst(s)
    ensures NewestFirst(Insert(x, s))
    ensures |Insert(x, s)| == |s| + 1
    decreases |s|
  {
    if |s| > 0 && s[0].createdAt >= x.createdAt {
      InsertKeepsOrder(x, s[1..]);
      InsertPermutes(x, s[1..]);
      var r := Insert(x, s);
      forall j | 1 <= j < |r| ensures r[0].createdAt >= r[j].createdAt {
        assert r[j] in multiset(Insert(x, s[1..]));
        assert r[j] in multiset(s[1..]) || r[j] == x;
        if r[j] != x {
          var m :| 0 <= m < |s[1..]| && s[1..][m] == r[j];
          assert s[m + 1] == r[j];
        }
      }
    }
  }

  lemma {:induction false} AtAppend(a: seq<Sutta>, b: seq<Sutta>, t: int)
    ensures At(a + b, t) == At(a, t) + At(b, t)
    decreases |a|
  {
    if |a| == 0 {
      assert a + b == b;
    } else {
      assert (a + b)[1..] == a[1..] + b;
      AtAppend(a[1..], b, t);
    }
  }

  lemma {:induction false} AtOlder(s: seq<Sutta>, t: int)
    requires forall j :: 0 <= j < |s| ==> s[j].createdAt < t
    ensures At(s, t) == []
    decreases |s|
  {
    if |s| > 0 {
      AtOlder(s[1..], t);
    }
  }

  lemma AtLast(s: seq<Sutta>, t: int)
    requires |s| > 0
    ensures At(s, t) == At(s[..|s| - 1], t) + (if s[|s| - 1].createdAt == t then [s[|s| - 1]] else [])
  {
    var init, last := s[..|s| - 1], s[|s| - 1];
    assert s == init + [last];
    AtAppend(init, [last], t);
    assert At([last], t) == (if last.createdAt == t then [last] else []) + At([], t);
  }

  /** Inserting x changes the entries of any one timestamp only by adding x at their end. */
  lemma {:induction false} InsertIsStable(x: Sutta, s: seq<Sutta>, t: int)
    requires NewestFirst(s)
    ensures At(Insert(x, s), t) == At(s, t) + (if x.createdAt == t then [x] else [])
    decreases |s|
  {
    if |s| == 0 {
      assert At([x], t) == (if x.createdAt == t then [x] else []) + At([], t);
    } else if s[0].createdAt >= x.createdAt {
      InsertIsStable(x, s[1..], t);
      assert ([s[0]] + Insert(x, s[1..]))[1..] == Insert(x, s[1..]);
    } else {
      if x.createdAt == t {
        AtOlder(s, t);
      }
      assert ([x] + s)[1..] == s;
    }
  }

  /** The sort returns a permutation of its input, newest first. */
  lemma {:induction false} SortSorts(s: seq<Sutta>)
    ensures multiset(SortNewestFirst(s)) == multiset(s)
    ensures NewestFirst(SortNewestFirst(s))
    decreases |s|
  {
    if |s| > 0 {
      var init := s[..|s| - 1];
      SortSorts(init);
      InsertPermutes(s[|s| - 1], SortNewestFirst(init));
      InsertKeepsOrder(s[|s| - 1], SortNewestFirst(init));
      assert s == init + [s[|s| - 1]];
    }
  }

  /** The sort is stable: entries with the same timestamp keep their catalogue order. */
  lemma {:induction false} SortIsStable(s: seq<Sutta>, t: int)
    ensures At(SortNewestFirst(s), t) == At(s, t)
    decreases |s|
  {
    if |s| > 0 {
      var init, last := s[..|s| - 1], s[|s| - 1];
      SortIsStable(init, t);
      SortSorts(init);
      InsertIsStable(last, SortNewestFirst(init), t);
      AtLast(s, t);
    }
  }

  /** `getAllSuttas`: a sorted copy, newest first; the catalogue itself is left as it was. */
  function GetAllSuttas(db: Db): (r: Result<seq<Sutta>, DbError>)
    ensures !db.initialized <==> r == Err(NotInitialized)
    ensures r.Ok? ==> multiset(r.value) == multiset(db.suttas) && NewestFirst(r.value)
    ensures r.Ok? ==> forall t :: At(r.value, t) == At(db.suttas, t)
  {
    if !db.initialized then Err(NotInitialized)
    else
      SortSorts(db.suttas);
      AllStable(db.suttas);
      Ok(SortNewestFirst(db.suttas))
  }

  lemma AllStable(s: seq<Sutta>)
    ensures forall t :: At(SortNewestFirst(s), t) == At(s, t)
  {
    forall t ensures At(SortNewestFirst(s), t) == At(s, t) {
      SortIsStable(s, t);
    }
  }

  /** Entries stamped in the same millisecond (the usual case right after initialisation)
      come back in catalogue order. */
  lemma {:induction false} SameInstantKeepsOrder(s: seq<Sutta>, t: int)
    requires forall j :: 0 <= j < |s| ==> s[j].createdAt == t
    ensures SortNewestFirst(s) == s
    decreases |s|
  {
    if |s| > 0 {
      var init := s[..|s| - 1];
      SameInstantKeepsOrder(init, t);
      InsertAfterEqual(s[|s| - 1], init);
      assert s == init + [s[|s| - 1]];
    }
  }

  lemma {:induction false} InsertAfterEqual(x: Sutta, s: seq<Sutta>)
    requires forall j :: 0 <= j < |s| ==> s[j].createdAt == x.createdAt
    ensures Insert(x, s) == s + [x]
    decreases |s|
  {
    if |s| > 0 {
      InsertAfterEqual(x, s[1..]);
      assert s == [s[0]] + s[1..];
    }
  }
}
