/// Merging labelled event streams by a stable sort on the key of time, label and number, and what of
/// the streams and their order the result shows.
module Aggregate {
  import opened Text

  datatype Event = Event(t: Word, number: Word, body: string)

  datatype Stream = Stream(city: string, events: seq<Event>)

  datatype Sighting = Sighting(city: string, event: Event)

  datatype Key = Key(t: Word, city: string, number: Word)

  function KeyOf(sighting: Sighting): Key {
    Key(sighting.event.t, sighting.city, sighting.event.number)
  }

  // ------------------------------------------------------------------- order

  predicate KeyBefore(a: Key, b: Key) {
    || a.t < b.t
    || (a.t == b.t && (TextBefore(a.city, b.city) || (a.city == b.city && a.number < b.number)))
  }

  predicate Ordered(s: seq<Sighting>) {
    forall i, j | 0 <= i < j < |s| :: !KeyBefore(KeyOf(s[j]), KeyOf(s[i]))
  }

  /// Of two keys, exactly one comes first unless they are the same key.
  lemma KeyTrichotomy(a: Key, b: Key)
    ensures KeyBefore(a, b) ==> !KeyBefore(b, a) && a != b
    ensures KeyBefore(a, b) || a == b || KeyBefore(b, a)
  {
    TextTrichotomy(a.city, b.city);
  }

  lemma KeyTransitive(a: Key, b: Key, c: Key)
    requires !KeyBefore(b, a) && !KeyBefore(c, b)
    ensures !KeyBefore(c, a)
  {
    TextTrichotomy(a.city, b.city);
    TextTrichotomy(b.city, c.city);
    TextTrichotomy(a.city, c.city);
    if TextBefore(a.city, b.city) && TextBefore(b.city, c.city) {
      TextTransitive(a.city, b.city, c.city);
    }
  }

  // ------------------------------------------------------------- stable sort

  /// `x` goes before the first sighting whose key does not precede its own.
  function Insert(x: Sighting, s: seq<Sighting>): (r: seq<Sighting>)
    ensures multiset(r) == multiset(s) + multiset{x}
  {
    if s == [] || !KeyBefore(KeyOf(s[0]), KeyOf(x)) then [x] + s
    else
      assert s == [s[0]] + s[1..];
      [s[0]] + Insert(x, s[1..])
  }

  /// `slice::sort_by_key`, which is stable.
  function StableSort(s: seq<Sighting>): (r: seq<Sighting>)
    ensures multiset(r) == multiset(s)
  {
    if s == [] then []
    else
      assert s == [s[0]] + s[1..];
      Insert(s[0], StableSort(s[1..]))
  }

  lemma OrderedCons(x: Sighting, s: seq<Sighting>)
    requires Ordered(s)
    requires s != [] ==> !KeyBefore(KeyOf(s[0]), KeyOf(x))
    ensures Ordered([x] + s)
    ensures forall y | y in s :: !KeyBefore(KeyOf(y), KeyOf(x))
  {
    hide KeyBefore, KeyOf;
    forall j | 0 <= j < |s|
      ensures !KeyBefore(KeyOf(s[j]), KeyOf(x))
    {
      if j > 0 { KeyTransitive(KeyOf(x), KeyOf(s[0]), KeyOf(s[j])); }
    }
  }

  lemma {:induction false} InsertKeepsOrder(x: Sighting, s: seq<Sighting>)
    requires Ordered(s)
    ensures Ordered(Insert(x, s))
  {
    hide KeyBefore, KeyOf;
    if s == [] || !KeyBefore(KeyOf(s[0]), KeyOf(x)) {
      OrderedCons(x, s);
    } else {
      InsertKeepsOrder(x, s[1..]);
      KeyTrichotomy(KeyOf(s[0]), KeyOf(x));
      var rest := Insert(x, s[1..]);
      assert rest[0] in multiset(s[1..]) + multiset{x};
      OrderedCons(s[0], rest);
    }
  }

  lemma {:induction false} SortOrders(s: seq<Sighting>)
    ensures Ordered(StableSort(s))
  {
    if s != [] {
      SortOrders(s[1..]);
      InsertKeepsOrder(s[0], StableSort(s[1..]));
    }
  }

  lemma {:induction false} SortIsIdentityIff(s: seq<Sighting>)
    ensures StableSort(s) == s <==> Ordered(s)
  {
    hide KeyBefore, KeyOf;
    SortOrders(s);
    if Ordered(s) && s != [] {
      SortIsIdentityIff(s[1..]);
    }
  }

  // ------------------------------------------------------------- restriction

  function Only(s: seq<Sighting>, keep: Sighting -> bool): seq<Sighting> {
    if s == [] then []
    else if keep(s[0]) then [s[0]] + Only(s[1..], keep)
    else Only(s[1..], keep)
  }

  function HasKey(key: Key): Sighting -> bool {
    (x: Sighting) => KeyOf(x) == key
  }

  function FromCity(city: string): Sighting -> bool {
    (x: Sighting) => x.city == city
  }

  function Keyed(s: seq<Sighting>, key: Key): seq<Sighting> {
    Only(s, HasKey(key))
  }

  /// What one city contributed, in the order it appears.
  function OfCity(s: seq<Sighting>, city: string): seq<Sighting> {
    Only(s, FromCity(city))
  }

  lemma {:induction false} OnlyKeeps(s: seq<Sighting>, keep: Sighting -> bool)
    ensures forall x :: x in Only(s, keep) <==> x in s && keep(x)
  {
    if s != [] {
      OnlyKeeps(s[1..], keep);
      assert s == [s[0]] + s[1..];
    }
  }

  lemma {:induction false} OnlyAppend(a: seq<Sighting>, b: seq<Sighting>, keep: Sighting -> bool)
    ensures Only(a + b, keep) == Only(a, keep) + Only(b, keep)
  {
    hide Only;
    if a == [] {
      assert a + b == b;
      OnlyOfNothing(keep);
    } else {
      OnlyAppend(a[1..], b, keep);
      assert a + b == [a[0]] + (a[1..] + b) && a == [a[0]] + a[1..];
      OnlyCons(a[0], a[1..] + b, keep);
      OnlyCons(a[0], a[1..], keep);
      Regrouped(if keep(a[0]) then [a[0]] else [], Only(a[1..], keep), Only(b, keep));
    }
  }

  lemma OnlyOfNothing(keep: Sighting -> bool)
    ensures Only([], keep) == []
  {
  }

  lemma OnlyCons(x: Sighting, s: seq<Sighting>, keep: Sighting -> bool)
    ensures Only([x] + s, keep) == (if keep(x) then [x] else []) + Only(s, keep)
  {
    assert ([x] + s)[1..] == s;
  }

  lemma {:induction false} OnlyAll(s: seq<Sighting>, keep: Sighting -> bool)
    requires forall x | x in s :: keep(x)
    ensures Only(s, keep) == s
  {
    if s != [] { OnlyAll(s[1..], keep); }
  }

  lemma {:induction false} OnlyNone(s: seq<Sighting>, keep: Sighting -> bool)
    requires forall x | x in s :: !keep(x)
    ensures Only(s, keep) == []
  {
    if s != [] { OnlyNone(s[1..], keep); }
  }

  lemma {:induction false} InsertCommutes(x: Sighting, s: seq<Sighting>, keep: Sighting -> bool)
    requires Ordered(s)
    ensures Only(Insert(x, s), keep)
         == if keep(x) then Insert(x, Only(s, keep)) else Only(s, keep)
  {
    hide KeyBefore, KeyOf;
    if s == [] || !KeyBefore(KeyOf(s[0]), KeyOf(x)) {
      OrderedCons(x, s);
      OnlyKeeps(s, keep);
      assert ([x] + s)[1..] == s;
      var kept := Only(s, keep);
      assert kept != [] ==> kept[0] in kept;
    } else {
      InsertCommutes(x, s[1..], keep);
      assert Insert(x, s)[1..] == Insert(x, s[1..]);
      if keep(s[0]) {
        assert Only(s, keep)[1..] == Only(s[1..], keep);
      }
    }
  }

  /// Restricting a stably sorted sequence is stably sorting the restriction.
  lemma {:induction false} SortCommutes(s: seq<Sighting>, keep: Sighting -> bool)
    ensures Only(StableSort(s), keep) == StableSort(Only(s, keep))
  {
    hide Insert;
    if s != [] {
      SortOrders(s[1..]);
      SortCommutes(s[1..], keep);
      InsertCommutes(s[0], StableSort(s[1..]), keep);
      if keep(s[0]) {
        assert Only(s, keep)[1..] == Only(s[1..], keep);
      }
    }
  }

  lemma SortIsStable(s: seq<Sighting>, key: Key)
    ensures Keyed(StableSort(s), key) == Keyed(s, key)
  {
    var same := HasKey(key);
    SortCommutes(s, same);
    OnlyKeeps(s, same);
    var kept := Only(s, same);
    forall i, j | 0 <= i < j < |kept|
      ensures !KeyBefore(KeyOf(kept[j]), KeyOf(kept[i]))
    {
      assert kept[i] in kept && kept[j] in kept;
      KeyTrichotomy(KeyOf(kept[j]), KeyOf(kept[i]));
    }
    SortIsIdentityIff(kept);
  }

  lemma KeyedHead(s: seq<Sighting>, key: Key)
    requires s != []
    ensures KeyOf(s[0]) == key ==> Keyed(s, key) == [s[0]] + Keyed(s[1..], key)
    ensures KeyOf(s[0]) != key ==> Keyed(s, key) == Keyed(s[1..], key)
  {
  }

  lemma KeyedFinds(s: seq<Sighting>, key: Key)
    requires Keyed(s, key) != []
    ensures exists i | 0 <= i < |s| :: KeyOf(s[i]) == key
  {
    OnlyKeeps(s, HasKey(key));
    var x := Keyed(s, key)[0];
    assert x in Keyed(s, key);
    var i :| 0 <= i < |s| && s[i] == x;
  }

  lemma HeadIsLeast(a: seq<Sighting>, b: seq<Sighting>)
    requires Ordered(a) && a != [] && b != []
    requires forall key :: Keyed(a, key) == Keyed(b, key)
    ensures !KeyBefore(KeyOf(b[0]), KeyOf(a[0]))
  {
    hide KeyBefore, KeyOf, Keyed;
    KeyTrichotomy(KeyOf(a[0]), KeyOf(a[0]));
    KeyedHead(b, KeyOf(b[0]));
    assert Keyed(a, KeyOf(b[0])) == Keyed(b, KeyOf(b[0]));
    KeyedFinds(a, KeyOf(b[0]));
  }

  /// An order by key that keeps the sightings of each key in their order leaves no choice.
  lemma {:induction false} StableOrderIsUnique(a: seq<Sighting>, b: seq<Sighting>)
    requires Ordered(a) && Ordered(b)
    requires forall key :: Keyed(a, key) == Keyed(b, key)
    ensures a == b
  {
    hide KeyBefore, KeyOf, Keyed;
    if a == [] || b == [] {
      if a != [] { KeyedHead(a, KeyOf(a[0])); NothingKeyed(KeyOf(a[0])); }
      if b != [] { KeyedHead(b, KeyOf(b[0])); NothingKeyed(KeyOf(b[0])); }
    } else {
      HeadIsLeast(a, b);
      HeadIsLeast(b, a);
      var least := KeyOf(a[0]);
      KeyTrichotomy(least, KeyOf(b[0]));
      KeyedHead(a, least);
      KeyedHead(b, least);
      assert Keyed(a, least)[0] == Keyed(b, least)[0];
      forall key
        ensures Keyed(a[1..], key) == Keyed(b[1..], key)
      {
        KeyedHead(a, key);
        KeyedHead(b, key);
        assert Keyed(a, key) == Keyed(b, key);
        if key == least {
          assert Keyed(a[1..], key) == Keyed(a, key)[1..];
          assert Keyed(b[1..], key) == Keyed(b, key)[1..];
        }
      }
      StableOrderIsUnique(a[1..], b[1..]);
    }
  }

  lemma NothingKeyed(key: Key)
    ensures Keyed([], key) == []
  {
  }

  // ------------------------------------------------------------------- merge

  function Sightings(stream: Stream): (s: seq<Sighting>)
    ensures |s| == |stream.events|
    ensures forall i | 0 <= i < |s| :: s[i] == Sighting(stream.city, stream.events[i])
  {
    seq(|stream.events|, i requires 0 <= i < |stream.events| =>
      Sighting(stream.city, stream.events[i]))
  }

  function Flattened(streams: seq<Stream>): seq<Sighting> {
    if streams == [] then [] else Sightings(streams[0]) + Flattened(streams[1..])
  }

  function Merge(streams: seq<Stream>): seq<Sighting> {
    StableSort(Flattened(streams))
  }

  /// The merged view is ordered, holds each sighting as often as the streams do, keeps sightings of
  /// one key as they came, and is the only sequence that does.
  lemma MergeIsTheStableOrder(streams: seq<Stream>, view: seq<Sighting>)
    ensures multiset(Merge(streams)) == multiset(Flattened(streams))
    ensures
      (view == Merge(streams))
      <==> (Ordered(view) && forall key :: Keyed(view, key) == Keyed(Flattened(streams), key))
  {
    hide Ordered, Keyed;
    var flat := Flattened(streams);
    SortOrders(flat);
    forall key
      ensures Keyed(StableSort(flat), key) == Keyed(flat, key)
    {
      SortIsStable(flat, key);
    }
    if Ordered(view) && forall key :: Keyed(view, key) == Keyed(flat, key) {
      StableOrderIsUnique(view, Merge(streams));
    }
  }

  lemma FlattenedCons(stream: Stream, rest: seq<Stream>)
    ensures Flattened([stream] + rest) == Sightings(stream) + Flattened(rest)
  {
    hide Sightings;
    assert ([stream] + rest)[1..] == rest;
  }

  lemma NothingFlattened()
    ensures Flattened([]) == []
  {
  }

  lemma {:induction false} FlattenedAppend(a: seq<Stream>, b: seq<Stream>)
    ensures Flattened(a + b) == Flattened(a) + Flattened(b)
  {
    hide Flattened, Sightings;
    if a == [] {
      assert a + b == b;
      NothingFlattened();
    } else {
      FlattenedAppend(a[1..], b);
      assert a + b == [a[0]] + (a[1..] + b) && a == [a[0]] + a[1..];
      FlattenedCons(a[0], a[1..] + b);
      FlattenedCons(a[0], a[1..]);
      Regrouped(Sightings(a[0]), Flattened(a[1..]), Flattened(b));
    }
  }

  /// What the streams say under one key.
  function Said(streams: seq<Stream>, key: Key): seq<Sighting> {
    Keyed(Flattened(streams), key)
  }

  lemma SaidAppend(a: seq<Stream>, b: seq<Stream>, key: Key)
    ensures Said(a + b, key) == Said(a, key) + Said(b, key)
  {
    FlattenedAppend(a, b);
    OnlyAppend(Flattened(a), Flattened(b), HasKey(key));
  }

  /// Of the streams, at most one speaks under this key.
  predicate OneSpeaker(streams: seq<Stream>, key: Key) {
    forall i, j | 0 <= i < j < |streams| :: Said([streams[i]], key) == [] || Said([streams[j]], key) == []
  }

  lemma {:induction false} SilentStreams(streams: seq<Stream>, key: Key)
    requires forall i | 0 <= i < |streams| :: Said([streams[i]], key) == []
    ensures Said(streams, key) == []
  {
    if streams != [] {
      SilentStreams(streams[1..], key);
      assert streams == [streams[0]] + streams[1..];
      SaidAppend([streams[0]], streams[1..], key);
    }
  }

  lemma SameRest(x: Stream, rest: seq<Stream>, before: seq<Stream>, after: seq<Stream>)
    requires multiset([x] + rest) == multiset(before + ([x] + after))
    ensures multiset(rest) == multiset(before + after)
  {
    assert multiset([x] + rest) == multiset{x} + multiset(rest);
    assert multiset(before + ([x] + after)) == multiset{x} + multiset(before + after);
    assert multiset(rest) == multiset([x] + rest) - multiset{x};
  }

  lemma {:induction false} SaidInAnyOrder(p: seq<Stream>, q: seq<Stream>, key: Key)
    requires multiset(p) == multiset(q) && OneSpeaker(p, key)
    ensures Said(p, key) == Said(q, key)
    decreases |p|
  {
    hide Said;
    assert |p| == |multiset(p)| == |q|;
    if p != [] {
      assert p[0] in multiset(q);
      var k :| 0 <= k < |q| && q[k] == p[0];
      var before, after := q[..k], q[k + 1..];
      assert p == [p[0]] + p[1..];
      assert q == before + ([p[0]] + after);
      SameRest(p[0], p[1..], before, after);
      SaidInAnyOrder(p[1..], before + after, key);
      SaidAppend([p[0]], p[1..], key);
      SaidAppend(before, [p[0]] + after, key);
      SaidAppend([p[0]], after, key);
      SaidAppend(before, after, key);
      if Said([p[0]], key) != [] {
        forall i | 0 <= i < |p[1..]|
          ensures Said([p[1..][i]], key) == []
        {
          assert p[1..][i] == p[i + 1] && Said([p[0]], key) != [];
        }
        SilentStreams(p[1..], key);
      }
    }
  }

  /// Two viewers see the same merged view exactly when, under every key, their streams say the same
  /// things in the same order.
  lemma SameViewIff(p: seq<Stream>, q: seq<Stream>)
    ensures Merge(p) == Merge(q) <==> forall key :: Said(p, key) == Said(q, key)
  {
    hide Merge;
    MergeIsTheStableOrder(p, Merge(p));
    MergeIsTheStableOrder(q, Merge(q));
    if forall key :: Said(p, key) == Said(q, key) {
      forall key
        ensures Keyed(Merge(p), key) == Keyed(Flattened(q), key)
      {
        assert Said(p, key) == Said(q, key);
      }
      MergeIsTheStableOrder(q, Merge(p));
    }
    if Merge(p) == Merge(q) {
      forall key
        ensures Said(p, key) == Said(q, key)
      {
        assert Keyed(Merge(p), key) == Keyed(Merge(q), key);
      }
    }
  }

  /// Where no key is spoken under by two streams, the order the streams arrive in is invisible.
  lemma ArrivalOrderIsInvisible(p: seq<Stream>, q: seq<Stream>)
    requires multiset(p) == multiset(q)
    requires forall key :: OneSpeaker(p, key)
    ensures Merge(p) == Merge(q)
  {
    hide Merge, Said, OneSpeaker;
    forall key
      ensures Said(p, key) == Said(q, key)
    {
      SaidInAnyOrder(p, q, key);
    }
    SameViewIff(p, q);
  }

  predicate DistinctCities(streams: seq<Stream>) {
    forall i, j | 0 <= i < j < |streams| :: streams[i].city != streams[j].city
  }

  predicate UniqueKeys(s: seq<Sighting>) {
    forall i, j | 0 <= i < j < |s| :: KeyOf(s[i]) != KeyOf(s[j])
  }

  lemma SaidBy(stream: Stream, key: Key)
    requires Said([stream], key) != []
    ensures stream.city == key.city
    ensures exists i | 0 <= i < |stream.events| :: KeyOf(Sighting(stream.city, stream.events[i])) == key
  {
    assert [stream][1..] == [];
    assert Flattened([stream]) == Sightings(stream);
    KeyedFinds(Sightings(stream), key);
  }

  /// A viewer attaches each label once, so whatever the cities say, the merged view does not depend
  /// on the order in which they are listed.
  lemma DistinctCitiesMergeAlike(p: seq<Stream>, q: seq<Stream>)
    requires multiset(p) == multiset(q) && DistinctCities(p)
    ensures Merge(p) == Merge(q)
  {
    hide Merge, Said;
    forall key
      ensures OneSpeaker(p, key)
    {
      forall i, j | 0 <= i < j < |p|
        ensures Said([p[i]], key) == [] || Said([p[j]], key) == []
      {
        if Said([p[i]], key) != [] && Said([p[j]], key) != [] {
          SaidBy(p[i], key);
          SaidBy(p[j], key);
        }
      }
    }
    ArrivalOrderIsInvisible(p, q);
  }

  /// The same holds of repeated labels, as long as no two sightings share a key.
  lemma UniqueKeysMergeAlike(p: seq<Stream>, q: seq<Stream>)
    requires multiset(p) == multiset(q) && UniqueKeys(Flattened(p))
    ensures Merge(p) == Merge(q)
  {
    hide Merge, Said;
    forall key
      ensures OneSpeaker(p, key)
    {
      forall i, j | 0 <= i < j < |p|
        ensures Said([p[i]], key) == [] || Said([p[j]], key) == []
      {
        UniqueKeysHaveOneSpeaker(p, i, j, key);
      }
    }
    ArrivalOrderIsInvisible(p, q);
  }

  lemma {:induction false} UniqueKeysSayOnce(s: seq<Sighting>, key: Key)
    requires UniqueKeys(s)
    ensures |Keyed(s, key)| <= 1
  {
    if s != [] {
      UniqueKeysSayOnce(s[1..], key);
      KeyedHead(s, key);
      if Keyed(s[1..], key) != [] { KeyedFinds(s[1..], key); }
    }
  }

  lemma UniqueKeysHaveOneSpeaker(p: seq<Stream>, i: nat, j: nat, key: Key)
    requires i < j < |p| && UniqueKeys(Flattened(p))
    ensures Said([p[i]], key) == [] || Said([p[j]], key) == []
  {
    hide Said, UniqueKeys, Flattened, Keyed;
    SaidOnce(p, key);
    assert p == p[..j] + p[j..] && p[..j][i] == p[i] && p[j..][0] == p[j];
    SaidAppend(p[..j], p[j..], key);
    SaidAtLeast(p[..j], i, key);
    SaidAtLeast(p[j..], 0, key);
  }

  lemma SaidOnce(p: seq<Stream>, key: Key)
    requires UniqueKeys(Flattened(p))
    ensures |Said(p, key)| <= 1
  {
    UniqueKeysSayOnce(Flattened(p), key);
  }

  lemma SaidAtLeast(p: seq<Stream>, i: nat, key: Key)
    requires i < |p|
    ensures |Said(p, key)| >= |Said([p[i]], key)|
  {
    hide Said;
    assert p == p[..i] + ([p[i]] + p[i + 1..]);
    SaidAppend(p[..i], [p[i]] + p[i + 1..], key);
    SaidAppend([p[i]], p[i + 1..], key);
  }

  /// Under one label attached twice the order does show: two accounts of one moment stay as they
  /// came.
  lemma OneLabelTwiceShowsTheOrder()
    ensures
      var one := Stream("lab", [Event(5, 1, "left")]);
      var two := Stream("lab", [Event(5, 1, "right")]);
      Merge([one, two]) != Merge([two, one])
  {
    var one := Stream("lab", [Event(5, 1, "left")]);
    var two := Stream("lab", [Event(5, 1, "right")]);
    var key := Key(5, "lab", 1);
    SaidAppend([one], [two], key);
    SaidAppend([two], [one], key);
    assert Said([one], key) == [Sighting("lab", one.events[0])] by { OneEvent(one, key); }
    assert Said([two], key) == [Sighting("lab", two.events[0])] by { OneEvent(two, key); }
    assert [one] + [two] == [one, two] && [two] + [one] == [two, one];
    assert Said([one, two], key)[0] == Sighting("lab", one.events[0]);
    assert Said([two, one], key)[0] == Sighting("lab", two.events[0]);
    SameViewIff([one, two], [two, one]);
  }

  lemma OneEvent(stream: Stream, key: Key)
    requires |stream.events| == 1 && KeyOf(Sighting(stream.city, stream.events[0])) == key
    ensures Said([stream], key) == [Sighting(stream.city, stream.events[0])]
  {
    assert [stream][1..] == [] && Flattened([stream]) == Sightings(stream);
    KeyedHead(Sightings(stream), key);
    NothingKeyed(key);
  }

  // -------------------------------------------------------------- one city's part

  /// The stream's clock does not run back, and where it stands still the numbers do not.
  predicate InClockOrder(events: seq<Event>) {
    forall i, j | 0 <= i < j < |events| ::
      events[i].t < events[j].t || (events[i].t == events[j].t && events[i].number <= events[j].number)
  }

  lemma InClockOrderIsOrdered(stream: Stream)
    ensures Ordered(Sightings(stream)) <==> InClockOrder(stream.events)
  {
    TextTrichotomy(stream.city, stream.city);
    var s, e := Sightings(stream), stream.events;
    if InClockOrder(e) {
      forall i, j | 0 <= i < j < |s|
        ensures !KeyBefore(KeyOf(s[j]), KeyOf(s[i]))
      {
        assert e[i].t < e[j].t || (e[i].t == e[j].t && e[i].number <= e[j].number);
      }
    }
    if Ordered(s) {
      forall i, j | 0 <= i < j < |e|
        ensures e[i].t < e[j].t || (e[i].t == e[j].t && e[i].number <= e[j].number)
      {
        assert !KeyBefore(KeyOf(s[j]), KeyOf(s[i]));
      }
    }
  }

  lemma {:induction false} CityInFlattened(streams: seq<Stream>, k: nat)
    requires k < |streams| && DistinctCities(streams)
    ensures OfCity(Flattened(streams), streams[k].city) == Sightings(streams[k])
  {
    var city := streams[k].city;
    var rest := streams[1..];
    var here := FromCity(city);
    OnlyAppend(Sightings(streams[0]), Flattened(rest), here);
    if k == 0 {
      OnlyAll(Sightings(streams[0]), here);
      NotAmong(rest, city);
      OnlyNone(Flattened(rest), here);
    } else {
      OnlyNone(Sightings(streams[0]), here);
      CityInFlattened(rest, k - 1);
    }
  }

  lemma {:induction false} NotAmong(streams: seq<Stream>, city: string)
    requires forall i | 0 <= i < |streams| :: streams[i].city != city
    ensures forall x | x in Flattened(streams) :: x.city != city
  {
    if streams != [] { NotAmong(streams[1..], city); }
  }

  /// Among distinct cities, what a reader sees of one city is its own stream, event for event,
  /// exactly when that stream is in clock order.
  lemma CityStreamSurvivesIff(streams: seq<Stream>, k: nat)
    requires k < |streams| && DistinctCities(streams)
    ensures
      OfCity(Merge(streams), streams[k].city) == Sightings(streams[k])
      <==> InClockOrder(streams[k].events)
  {
    var city := streams[k].city;
    SortCommutes(Flattened(streams), FromCity(city));
    CityInFlattened(streams, k);
    assert OfCity(Merge(streams), city) == StableSort(Sightings(streams[k]));
    SortIsIdentityIff(Sightings(streams[k]));
    InClockOrderIsOrdered(streams[k]);
  }

  /// A city whose clock runs back is not read as it wrote: its later event comes first.
  lemma ClockRunningBackReorders()
    ensures
      var stream := Stream("lab", [Event(2, 1, "first"), Event(1, 2, "second")]);
      OfCity(Merge([stream]), "lab") != Sightings(stream)
  {
    var stream := Stream("lab", [Event(2, 1, "first"), Event(1, 2, "second")]);
    assert !(stream.events[0].t <= stream.events[1].t);
    assert !InClockOrder(stream.events);
    CityStreamSurvivesIff([stream], 0);
  }
}
