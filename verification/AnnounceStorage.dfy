/** Announce storage: a hash map of lists and an expiry list acting as one timed, bounded set. */
module AnnounceStorage {
  import opened Wrappers
  import opened Sha

  const MAX_ITEMS_STORED := 500
  /** 24 hours, in milliseconds. */
  const EXPIRATION_TIME := 24 * 60 * 60 * 1000

  type SocketAddr = nat
  type Time = int

  /** A stored contact and when it was made; two items are equal when hash and address are. */
  datatype Item = Item(infoHash: ShaHash, address: SocketAddr, inserted: Time)

  type Key = (ShaHash, SocketAddr)

  function KeyOf(i: Item): Key {
    (i.infoHash, i.address)
  }

  predicate IsExpired(i: Item, now: Time) {
    now - i.inserted >= EXPIRATION_TIME
  }

  // ----- The reference: the latest accepted announce of every contact

  type Announces = map<Key, Time>

  ghost function Prune(m: Announces, now: Time): Announces {
    map k | k in m && now - m[k] < EXPIRATION_TIME :: m[k]
  }

  ghost function Announce(m: Announces, key: Key, currTime: Time, now: Time): (Announces, bool) {
    var p := Prune(m, currTime);
    if key in p || |p| < MAX_ITEMS_STORED then (p[key := now], true) else (p, false)
  }

  // ----- The expiry list

  ghost function Latest(es: seq<Item>): (m: Announces) {
    if es == [] then map[] else Latest(es[1..])[KeyOf(es[0]) := es[0].inserted]
  }

  /** No contact is listed twice. */
  ghost predicate Distinct(es: seq<Item>) {
    es == [] || (KeyOf(es[0]) !in Latest(es[1..]) && Distinct(es[1..]))
  }

  /** In insertion order, and not from the future. */
  predicate InOrder(es: seq<Item>, clock: Time) {
    && (forall i, j :: 0 <= i < j < |es| ==> es[i].inserted <= es[j].inserted)
    && (forall i :: 0 <= i < |es| ==> es[i].inserted <= clock)
  }

  lemma {:induction false} LatestSize(es: seq<Item>)
    requires Distinct(es)
    ensures |Latest(es)| == |es|
  {
    if es != [] {
      LatestSize(es[1..]);
      var m, k := Latest(es[1..]), KeyOf(es[0]);
      assert m[k := es[0].inserted].Keys == m.Keys + {k};
    }
  }

  lemma {:induction false} LatestPush(es: seq<Item>, e: Item)
    requires Distinct(es) && KeyOf(e) !in Latest(es)
    ensures Distinct(es + [e]) && Latest(es + [e]) == Latest(es)[KeyOf(e) := e.inserted]
  {
    if es == [] {
      assert es + [e] == [e] && [e][1..] == [];
    } else {
      assert (es + [e])[1..] == es[1..] + [e];
      LatestPush(es[1..], e);
      var m: Announces, k: Key, l: Key := Latest(es[1..]), KeyOf(es[0]), KeyOf(e);
      assert m[l := e.inserted][k := es[0].inserted] == m[k := es[0].inserted][l := e.inserted];
    }
  }

  function Without(es: seq<Item>, key: Key): (r: seq<Item>) {
    if es == [] then [] else if KeyOf(es[0]) == key then Without(es[1..], key) else [es[0]] + Without(es[1..], key)
  }

  lemma {:induction false} WithoutIn(es: seq<Item>, key: Key)
    ensures |Without(es, key)| <= |es|
    ensures forall x :: x in Without(es, key) ==> x in es
  {
    if es != [] {
      WithoutIn(es[1..], key);
    }
  }

  lemma {:induction false} WithoutOrder(es: seq<Item>, key: Key, clock: Time)
    requires InOrder(es, clock)
    ensures InOrder(Without(es, key), clock)
  {
    hide KeyOf;
    if es != [] {
      WithoutOrder(es[1..], key, clock);
      WithoutIn(es[1..], key);
      var rest := Without(es[1..], key);
      forall j | 0 <= j < |rest| ensures es[0].inserted <= rest[j].inserted {
        assert rest[j] in es[1..];
      }
    }
  }

  lemma {:induction false} WithoutLatest(es: seq<Item>, key: Key)
    requires Distinct(es)
    ensures Distinct(Without(es, key)) && Latest(Without(es, key)) == Latest(es) - {key}
  {
    hide KeyOf;
    if es != [] {
      var rest := Without(es[1..], key);
      WithoutLatest(es[1..], key);
      if KeyOf(es[0]) != key {
        assert ([es[0]] + rest)[1..] == rest;
      }
    }
  }

  // ----- The hash map

  type Storage = map<ShaHash, seq<Item>>

  /** The map holds exactly the keys, each once, under its own hash and in no empty list. */
  ghost predicate Agrees(storage: Storage, keys: set<Key>) {
    && (forall h :: h in storage ==> ListAgrees(storage[h], h, keys))
    && (forall k :: k in keys ==> Stored(storage, k))
  }

  /** One list: not empty, under its own hash, only known contacts, none twice. */
  ghost predicate ListAgrees(items: seq<Item>, h: ShaHash, keys: set<Key>) {
    && items != []
    && (forall i :: 0 <= i < |items| ==> items[i].infoHash == h && KeyOf(items[i]) in keys)
    && (forall i, j :: 0 <= i < j < |items| ==> items[i].address != items[j].address)
  }

  predicate Lists(items: seq<Item>, a: SocketAddr) {
    exists i :: 0 <= i < |items| && items[i].address == a
  }

  predicate Stored(storage: Storage, k: Key) {
    k.0 in storage && Lists(storage[k.0], k.1)
  }

  /** The list of one hash without the expired contact, and the map without the list if that was all. */
  function Drop(storage: Storage, e: Item): Storage {
    if e.infoHash !in storage then storage
    else
      var items := Without(storage[e.infoHash], KeyOf(e));
      if items == [] then storage - {e.infoHash} else storage[e.infoHash := items]
  }

  function Store(storage: Storage, e: Item): Storage {
    storage[e.infoHash := if e.infoHash in storage then storage[e.infoHash] + [e] else [e]]
  }

  lemma {:induction false} WithoutLists(items: seq<Item>, h: ShaHash, a: SocketAddr, b: SocketAddr)
    requires forall i :: 0 <= i < |items| ==> items[i].infoHash == h
    ensures Lists(Without(items, (h, a)), b) <==> Lists(items, b) && a != b
  {
    if items != [] {
      WithoutLists(items[1..], h, a, b);
      ListsCons(items[0], items[1..], b);
      ListsCons(items[0], Without(items[1..], (h, a)), b);
      assert items == [items[0]] + items[1..];
    }
  }

  lemma ListsCons(e: Item, items: seq<Item>, a: SocketAddr)
    ensures Lists([e] + items, a) <==> e.address == a || Lists(items, a)
  {
    if Lists(items, a) {
      var i :| 0 <= i < |items| && items[i].address == a;
      assert ([e] + items)[i + 1] == items[i];
    }
    assert ([e] + items)[0] == e;
  }

  lemma {:induction false} WithoutAgrees(items: seq<Item>, h: ShaHash, keys: set<Key>, key: Key)
    requires items == [] || ListAgrees(items, h, keys)
    ensures Without(items, key) == [] || ListAgrees(Without(items, key), h, keys - {key})
  {
    if items != [] {
      var rest := Without(items[1..], key);
      WithoutAgrees(items[1..], h, keys, key);
      WithoutIn(items[1..], key);
      forall j | 0 <= j < |rest| ensures rest[j].address != items[0].address {
        assert rest[j] in items[1..];
      }
    }
  }

  lemma DropAgrees(storage: Storage, keys: set<Key>, e: Item)
    requires Agrees(storage, keys) && KeyOf(e) in keys
    ensures Agrees(Drop(storage, e), keys - {KeyOf(e)})
  {
    hide Without, Lists;
    var t: Storage, h, left := Drop(storage, e), e.infoHash, keys - {KeyOf(e)};
    assert Stored(storage, KeyOf(e));
    WithoutAgrees(storage[h], h, keys, KeyOf(e));
    forall g | g in t ensures ListAgrees(t[g], g, left) {}
    forall k | k in left ensures Stored(t, k) {
      assert Stored(storage, k);
      if k.0 == h {
        WithoutLists(storage[h], h, e.address, k.1);
        NoneListed(k.1);
      }
    }
  }

  lemma NoneListed(a: SocketAddr)
    ensures !Lists([], a)
  {}

  lemma StoreAgrees(storage: Storage, keys: set<Key>, e: Item)
    requires Agrees(storage, keys) && KeyOf(e) !in keys
    ensures Agrees(Store(storage, e), keys + {KeyOf(e)})
  {
    hide Lists;
    var t: Storage, h, more := Store(storage, e), e.infoHash, keys + {KeyOf(e)};
    assert [] + [e] == [e];
    forall g | g in t ensures ListAgrees(t[g], g, more) {}
    forall k | k in more ensures Stored(t, k) {
      if k.0 == h {
        ListsSnoc(if h in storage then storage[h] else [], e, k.1);
      }
      assert k in keys ==> Stored(storage, k);
    }
  }

  lemma ListsSnoc(items: seq<Item>, e: Item, a: SocketAddr)
    ensures Lists(items + [e], a) <==> Lists(items, a) || e.address == a
  {
    if Lists(items, a) {
      var i :| 0 <= i < |items| && items[i].address == a;
      assert (items + [e])[i] == items[i];
    }
    assert (items + [e])[|items|] == e;
  }

  // ----- Expiry from the front of the list

  /** What is left when the expired items at the front are gone. */
  function Survivors(es: seq<Item>, t: Time): seq<Item> {
    if es == [] || !IsExpired(es[0], t) then es else Survivors(es[1..], t)
  }

  lemma {:induction false} SurvivorsAre(es: seq<Item>, t: Time)
    requires Distinct(es)
    ensures Distinct(Survivors(es, t)) && |Survivors(es, t)| <= |es|
    ensures Prune(Latest(Survivors(es, t)), t) == Prune(Latest(es), t)
  {
    if es != [] && IsExpired(es[0], t) {
      SurvivorsAre(es[1..], t);
    }
  }

  /** No expired item stands behind one that has not expired. */
  predicate ExpiredFirst(es: seq<Item>, t: Time) {
    forall i, j :: 0 <= i < j < |es| && IsExpired(es[j], t) ==> IsExpired(es[i], t)
  }

  lemma {:induction false} LatestOf(es: seq<Item>, i: nat)
    requires Distinct(es) && i < |es|
    ensures KeyOf(es[i]) in Latest(es) && Latest(es)[KeyOf(es[i])] == es[i].inserted
  {
    if i > 0 {
      LatestOf(es[1..], i - 1);
    }
  }

  lemma {:induction false} LatestValues(es: seq<Item>, k: Key)
    requires k in Latest(es)
    ensures exists i :: 0 <= i < |es| && KeyOf(es[i]) == k && es[i].inserted == Latest(es)[k]
  {
    if KeyOf(es[0]) == k {
    } else {
      LatestValues(es[1..], k);
      var i :| 0 <= i < |es[1..]| && KeyOf(es[1..][i]) == k && es[1..][i].inserted == Latest(es[1..])[k];
      assert es[i + 1] == es[1..][i];
    }
  }

  /** A list is its own fresh part exactly if nothing in it has expired. */
  lemma NothingExpired(es: seq<Item>, t: Time)
    requires Distinct(es)
    ensures Prune(Latest(es), t) == Latest(es) <==> forall i :: 0 <= i < |es| ==> !IsExpired(es[i], t)
  {
    hide Latest, Distinct, KeyOf;
    if forall i :: 0 <= i < |es| ==> !IsExpired(es[i], t) {
      forall k | k in Latest(es) ensures t - Latest(es)[k] < EXPIRATION_TIME {
        LatestValues(es, k);
      }
    }
    if i :| 0 <= i < |es| && IsExpired(es[i], t) {
      LatestOf(es, i);
      assert KeyOf(es[i]) !in Prune(Latest(es), t);
    }
  }

  /** Expiry from the front removes exactly what has expired if and only if that all stands in front. */
  lemma {:induction false} SurvivorsExactIff(es: seq<Item>, t: Time)
    requires Distinct(es)
    ensures Latest(Survivors(es, t)) == Prune(Latest(es), t) <==> ExpiredFirst(es, t)
  {
    hide Latest, Prune;
    SurvivorsAre(es, t);
    if es != [] && IsExpired(es[0], t) {
      SurvivorsExactIff(es[1..], t);
      SurvivorsAre(es[1..], t);
      FirstExpired(es, t);
    } else {
      NothingExpired(es, t);
      FirstFresh(es, t);
    }
  }

  lemma FirstExpired(es: seq<Item>, t: Time)
    requires es != [] && IsExpired(es[0], t)
    ensures ExpiredFirst(es, t) <==> ExpiredFirst(es[1..], t)
  {
    if ExpiredFirst(es, t) {
      forall i, j | 0 <= i < j < |es[1..]| && IsExpired(es[1..][j], t) ensures IsExpired(es[1..][i], t) {
        assert es[1..][i] == es[i + 1] && es[1..][j] == es[j + 1];
      }
    }
    if ExpiredFirst(es[1..], t) {
      forall i, j | 0 <= i < j < |es| && IsExpired(es[j], t) ensures IsExpired(es[i], t) {
        assert es[j] == es[1..][j - 1] && (i > 0 ==> es[i] == es[1..][i - 1]);
      }
    }
  }

  lemma FirstFresh(es: seq<Item>, t: Time)
    requires es == [] || !IsExpired(es[0], t)
    ensures ExpiredFirst(es, t) <==> forall i :: 0 <= i < |es| ==> !IsExpired(es[i], t)
  {}

  /** With a clock that went back, a contact is kept past its time. */
  lemma KeptTooLongExample(h: ShaHash)
    ensures var es, t := [Item(h, 0, 100), Item(h, 1, 0)], EXPIRATION_TIME + 50;
            Distinct(es) && (h, 1) in Latest(Survivors(es, t)) && (h, 1) !in Prune(Latest(es), t)
  {
    var x, y := Item(h, 0, 100), Item(h, 1, 0);
    assert [x, y][1..] == [y] && [y][1..] == [];
    assert Latest([y]) == map[(h, 1) := 0];
  }

  // ----- Insertion

  predicate Contains(items: seq<Item>, key: Key) {
    exists i :: 0 <= i < |items| && KeyOf(items[i]) == key
  }

  lemma KnownIsStored(storage: Storage, keys: set<Key>, key: Key)
    requires Agrees(storage, keys)
    ensures key.0 in storage && Contains(storage[key.0], key) <==> key in keys
  {
    if key in keys {
      assert Stored(storage, key);
      var items := storage[key.0];
      var i :| 0 <= i < |items| && items[i].address == key.1;
      assert KeyOf(items[i]) == key;
    }
  }

  function Refreshed(es: seq<Item>, e: Item): seq<Item> {
    Without(es, KeyOf(e)) + [e]
  }

  /** A repeated announce moves to the end of the list and takes no more room. */
  lemma RefreshKeeps(es: seq<Item>, e: Item)
    requires Distinct(es) && KeyOf(e) in Latest(es)
    ensures Distinct(Refreshed(es, e)) && |Refreshed(es, e)| == |es|
    ensures Latest(Refreshed(es, e)) == Latest(es)[KeyOf(e) := e.inserted]
    ensures Latest(Refreshed(es, e)).Keys == Latest(es).Keys
  {
    hide Latest, Distinct, KeyOf, Without;
    var rest: seq<Item>, m: Announces := Without(es, KeyOf(e)), Latest(es);
    WithoutLatest(es, KeyOf(e));
    LatestPush(rest, e);
    LatestSize(es);
    LatestSize(rest + [e]);
    assert m[KeyOf(e) := e.inserted].Keys == m.Keys;
  }

  /** An announce: expiry first, then refreshed if held, listed if there is room, refused otherwise. */
  ghost function Added(es: seq<Item>, e: Item, currTime: Time): (seq<Item>, bool) {
    var left := Survivors(es, currTime);
    if KeyOf(e) in Latest(left) then (Refreshed(left, e), true)
    else if |left| < MAX_ITEMS_STORED then (left + [e], true)
    else (left, false)
  }

  lemma AddedKeeps(es: seq<Item>, e: Item, currTime: Time)
    requires Distinct(es) && |es| <= MAX_ITEMS_STORED
    ensures Distinct(Added(es, e, currTime).0) && |Added(es, e, currTime).0| <= MAX_ITEMS_STORED
  {
    hide Latest, Distinct, Refreshed, Survivors, Prune;
    SurvivorsAre(es, currTime);
    var left := Survivors(es, currTime);
    if KeyOf(e) in Latest(left) {
      RefreshKeeps(left, e);
    } else {
      LatestPush(left, e);
    }
  }

  method Addresses(items: seq<Item>) returns (r: seq<SocketAddr>)
    ensures |r| == |items| && forall i :: 0 <= i < |items| ==> r[i] == items[i].address
  {
    r := [];
    for n := 0 to |items|
      invariant |r| == n && forall i :: 0 <= i < n ==> r[i] == items[i].address
    {
      r := r + [items[n].address];
    }
  }

  lemma AddressesAreKeys(storage: Storage, keys: set<Key>, h: ShaHash, a: SocketAddr)
    requires Agrees(storage, keys)
    ensures (h, a) in keys <==> h in storage && Lists(storage[h], a)
  {
    assert (h, a) in keys ==> Stored(storage, (h, a));
  }

  class Announcer {
    var storage: Storage
    var expires: seq<Item>

    /** The accepted announces that have not been removed. */
    ghost function View(): Announces
      reads this
    {
      Latest(expires)
    }

    ghost predicate Valid()
      reads this
    {
      && Distinct(expires)
      && |expires| <= MAX_ITEMS_STORED
      && Agrees(storage, View().Keys)
    }

    constructor ()
      ensures Valid() && expires == []
    {
      storage, expires := map[], [];
    }

    method RemoveExpiredItems(currTime: Time)
      requires Valid()
      modifies this
      ensures Valid() && expires == Survivors(old(expires), currTime)
    {
      hide Distinct, Agrees, Latest;
      var expired := 0;
      while expired < |expires| && IsExpired(expires[expired], currTime)
        invariant expired <= |expires|
        invariant forall i :: 0 <= i < expired ==> IsExpired(expires[i], currTime)
      {
        expired := expired + 1;
      }
      while expired > 0
        invariant Valid() && 0 <= expired <= |expires|
        invariant Survivors(expires, currTime) == Survivors(old(expires), currTime)
        invariant forall i :: 0 <= i < expired ==> IsExpired(expires[i], currTime)
        invariant expired < |expires| ==> !IsExpired(expires[expired], currTime)
      {
        DropFirst();
        expired := expired - 1;
      }
    }

    method DropFirst()
      requires Valid() && expires != []
      modifies this
      ensures Valid() && expires == old(expires[1..])
    {
      DropAgrees(storage, View().Keys, expires[0]);
      storage := Drop(storage, expires[0]);
      expires := expires[1..];
      assert View().Keys == old(View()).Keys - {KeyOf(old(expires[0]))};
    }

    /** None: no room; Some(true): already there; Some(false): now there. */
    method InsertContact(item: Item) returns (r: Option<bool>)
      requires Valid()
      modifies `storage
      ensures r == (if KeyOf(item) in View() then Some(true)
                    else if |expires| < MAX_ITEMS_STORED then Some(false) else None)
      ensures r == Some(false) ==> Agrees(storage, View().Keys + {KeyOf(item)})
      ensures r != Some(false) ==> storage == old(storage)
    {
      hide Distinct, Agrees, Latest;
      var known := item.infoHash in storage && Contains(storage[item.infoHash], KeyOf(item));
      KnownIsStored(storage, View().Keys, KeyOf(item));
      if known {
        r := Some(true);
      } else if |expires| < MAX_ITEMS_STORED {
        StoreAgrees(storage, View().Keys, item);
        storage := Store(storage, item);
        r := Some(false);
      } else {
        r := None;
      }
    }

    method Add(infoHash: ShaHash, address: SocketAddr, currTime: Time, now: Time) returns (added: bool)
      requires Valid()
      modifies this
      ensures Valid() && (expires, added) == Added(old(expires), Item(infoHash, address, now), currTime)
    {
      hide Distinct, Agrees, Latest, Refreshed;
      RemoveExpiredItems(currTime);
      var item := Item(infoHash, address, now);
      var r := InsertContact(item);
      match r {
        case Some(true) =>
          RefreshKeeps(expires, item);
          expires := Refreshed(expires, item);
        case Some(false) =>
          LatestPush(expires, item);
          PushedKeys(View(), KeyOf(item), now);
          expires := expires + [item];
        case None =>
      }
      added := r.Some?;
    }

    /** Each address of the hash that is still held, once, and no other. */
    method Find(infoHash: ShaHash, currTime: Time) returns (r: seq<SocketAddr>)
      requires Valid()
      modifies this
      ensures Valid() && expires == Survivors(old(expires), currTime)
      ensures forall a :: a in r <==> (infoHash, a) in View()
      ensures forall i, j :: 0 <= i < j < |r| ==> r[i] != r[j]
    {
      RemoveExpiredItems(currTime);
      r := [];
      if infoHash in storage {
        r := Addresses(storage[infoHash]);
      }
      forall a ensures a in r <==> (infoHash, a) in View() {
        AddressesAreKeys(storage, View().Keys, infoHash, a);
      }
    }
  }

  lemma PushedKeys(m: Announces, key: Key, t: Time)
    ensures m[key := t].Keys == m.Keys + {key}
  {}

  // ----- Whole runs

  datatype Call = Announcing(key: Key, currTime: Time, now: Time) | Finding(currTime: Time)

  function ItemOf(c: Call): Item
    requires c.Announcing?
  {
    Item(c.key.0, c.key.1, c.now)
  }

  /** The expiry list after the calls. */
  ghost function Listed(calls: seq<Call>): seq<Item> {
    if calls == [] then []
    else
      var es, c := Listed(calls[..|calls| - 1]), calls[|calls| - 1];
      if c.Announcing? then Added(es, ItemOf(c), c.currTime).0 else Survivors(es, c.currTime)
  }

  /** Whatever the clock does, no contact is listed twice and no more than 500 are. */
  lemma {:induction false} ListedIsBounded(calls: seq<Call>)
    ensures Distinct(Listed(calls)) && |Listed(calls)| <= MAX_ITEMS_STORED
  {
    hide Added, Distinct, Survivors, Prune;
    if calls == [] {
      NoneIsDistinct();
    } else {
      var front, c := calls[..|calls| - 1], calls[|calls| - 1];
      ListedIsBounded(front);
      SurvivorsAre(Listed(front), c.currTime);
      if c.Announcing? {
        AddedKeeps(Listed(front), ItemOf(c), c.currTime);
      }
    }
  }

  lemma NoneIsDistinct()
    ensures Distinct([])
  {}

  /** The reference: what is held when an announce or a lookup removes everything that has expired. */
  ghost function Held(calls: seq<Call>): Announces {
    if calls == [] then map[]
    else
      var m := Held(calls[..|calls| - 1]);
      match calls[|calls| - 1]
      case Announcing(key, currTime, now) => Announce(m, key, currTime, now).0
      case Finding(currTime) => Prune(m, currTime)
  }

  /** Insertion times never go back, and end before `clock`. */
  ghost predicate InsertedForward(calls: seq<Call>, clock: Time) {
    calls == [] ||
    var front, c := calls[..|calls| - 1], calls[|calls| - 1];
    if c.Announcing? then c.now <= clock && InsertedForward(front, c.now) else InsertedForward(front, clock)
  }

  lemma OrderedExpiresFirst(es: seq<Item>, clock: Time, t: Time)
    requires InOrder(es, clock)
    ensures ExpiredFirst(es, t)
  {}

  lemma {:induction false} SurvivorsInOrder(es: seq<Item>, t: Time, clock: Time)
    requires InOrder(es, clock)
    ensures InOrder(Survivors(es, t), clock)
  {
    if es != [] && IsExpired(es[0], t) {
      SurvivorsInOrder(es[1..], t, clock);
    }
  }

  lemma PushInOrder(es: seq<Item>, e: Item, clock: Time)
    requires InOrder(es, clock) && clock <= e.inserted
    ensures InOrder(es + [e], e.inserted) && InOrder(es, e.inserted)
  {}

  /** On an ordered list an announce is the reference's, and leaves the list ordered. */
  lemma AddedIsAnnounce(es: seq<Item>, e: Item, currTime: Time, clock: Time)
    requires Distinct(es) && InOrder(es, clock) && clock <= e.inserted
    ensures InOrder(Added(es, e, currTime).0, e.inserted)
    ensures (Latest(Added(es, e, currTime).0), Added(es, e, currTime).1) ==
            Announce(Latest(es), KeyOf(e), currTime, e.inserted)
  {
    hide Latest, Distinct, InOrder, Survivors, Prune, Without;
    var left := Survivors(es, currTime);
    SurvivorsAre(es, currTime);
    OrderedExpiresFirst(es, clock, currTime);
    SurvivorsExactIff(es, currTime);
    SurvivorsInOrder(es, currTime, clock);
    LatestSize(left);
    PushInOrder(left, e, clock);
    if KeyOf(e) in Latest(left) {
      RefreshKeeps(left, e);
      WithoutOrder(left, KeyOf(e), clock);
      PushInOrder(Without(left, KeyOf(e)), e, clock);
    } else {
      LatestPush(left, e);
    }
  }

  /** With insertion times that never go back, list and map are the reference after every run. */
  lemma {:induction false} ListedIsHeld(calls: seq<Call>, clock: Time)
    requires InsertedForward(calls, clock)
    ensures InOrder(Listed(calls), clock) && Latest(Listed(calls)) == Held(calls)
    decreases |calls|
  {
    hide Added, Announce, Survivors, Prune, InOrder, Distinct;
    if calls == [] {
      NoneInOrder(clock);
    } else {
      var front, c := calls[..|calls| - 1], calls[|calls| - 1];
      ListedIsBounded(front);
      if c.Announcing? {
        ListedIsHeld(front, c.now);
        AddedIsAnnounce(Listed(front), ItemOf(c), c.currTime, c.now);
        LaterClock(Listed(calls), c.now, clock);
      } else {
        ListedIsHeld(front, clock);
        OrderedExpiresFirst(Listed(front), clock, c.currTime);
        SurvivorsExactIff(Listed(front), c.currTime);
        SurvivorsInOrder(Listed(front), c.currTime, clock);
      }
    }
  }

  lemma NoneInOrder(clock: Time)
    ensures InOrder([], clock) && Latest([]) == map[]
  {}

  lemma LaterClock(es: seq<Item>, clock: Time, later: Time)
    requires InOrder(es, clock) && clock <= later
    ensures InOrder(es, later)
  {}

  /** A ledger that never forgets: the last announce of every contact that was let in. */
  ghost function Ledger(calls: seq<Call>): Announces {
    if calls == [] then map[]
    else
      var m := Ledger(calls[..|calls| - 1]);
      match calls[|calls| - 1]
      case Announcing(key, currTime, now) => if Admitted(m, key, currTime) then m[key := now] else m
      case Finding(_) => m
  }

  /** Let in: fresh already, or fewer than the limit are fresh. */
  ghost predicate Admitted(ledger: Announces, key: Key, t: Time) {
    key in Prune(ledger, t) || |Prune(ledger, t)| < MAX_ITEMS_STORED
  }

  /** Clock readings never go back. */
  ghost predicate Forward(calls: seq<Call>, t: Time) {
    calls == [] ||
    var c := calls[|calls| - 1];
    && c.currTime <= t
    && Forward(calls[..|calls| - 1], c.currTime)
  }

  lemma PruneTwice(m: Announces, s: Time, t: Time)
    requires s <= t
    ensures Prune(Prune(m, s), t) == Prune(m, t)
  {}

  lemma PruneSet(m: Announces, key: Key, now: Time, s: Time, t: Time)
    requires s <= t
    ensures Prune(Prune(m, s)[key := now], t) == Prune(m[key := now], t)
  {}

  /** At any later time, what is held and fresh is what the ledger says is fresh. */
  lemma {:induction false} HeldIsFreshLedger(calls: seq<Call>, t: Time)
    requires Forward(calls, t)
    ensures Prune(Held(calls), t) == Prune(Ledger(calls), t)
  {
    hide Prune;
    if calls != [] {
      var front, c := calls[..|calls| - 1], calls[|calls| - 1];
      HeldIsFreshLedger(front, c.currTime);
      PruneTwice(Held(front), c.currTime, t);
      PruneTwice(Ledger(front), c.currTime, t);
      if c.Announcing? {
        PruneSet(Ledger(front), c.key, c.now, c.currTime, t);
      }
    }
  }

  /**
   * With a clock that never goes back, any call is answered as the ledger says: an announce is let in, and a contact
   * found, exactly if its last announce let in is less than 24 hours old or, for an announce, there is room.
   */
  lemma AnswersFollowLedger(calls: seq<Call>, key: Key, currTime: Time, now: Time, clock: Time)
    requires Forward(calls, currTime) && InsertedForward(calls, clock) && clock <= now
    ensures Added(Listed(calls), Item(key.0, key.1, now), currTime).1 <==> Admitted(Ledger(calls), key, currTime)
    ensures key in Latest(Survivors(Listed(calls), currTime)) <==>
            key in Ledger(calls) && currTime - Ledger(calls)[key] < EXPIRATION_TIME
  {
    hide Added, Listed, Survivors, Latest, Held, Ledger;
    ListedIsBounded(calls);
    ListedIsHeld(calls, clock);
    LaterClock(Listed(calls), clock, now);
    HeldIsFreshLedger(calls, currTime);
    AddedIsAnnounce(Listed(calls), Item(key.0, key.1, now), currTime, now);
    OrderedExpiresFirst(Listed(calls), clock, currTime);
    SurvivorsExactIff(Listed(calls), currTime);
  }
}
