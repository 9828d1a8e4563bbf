/** `MetadataUtil.ItemToDateMap`: the index the consistency check builds,
    from item key to the first timestamp seen for it and to the names of the
    packages that contain it. */
module ItemIndex {
  import opened Wrappers
  import opened Catalog

  /** The exceptions `addItem` raises. */
  datatype IndexError =
    | UuidUnreadable(className: string)              // getKey: RuntimeException
    | NotAuditable                                    // getLastModified: IllegalArgumentException
    | Inconsistent(key: string, packages: set<string>) // addItem: IllegalStateException

  /** `getKey(item)`: simple class name, ':', uuid. */
  function KeyOf(item: ImportedItem): (r: Result<string, IndexError>)
    ensures r.Success? <==> item.incoming.uuid.Some?
  {
    match item.incoming.uuid
    case None => Failure(UuidUnreadable(item.className))
    case Some(uuid) => Success(item.className + ":" + uuid)
  }

  /** Two items share a key exactly when they have the same class name and
      the same uuid: Java simple class names hold no ':', so the first ':' of
      a key ends its class name. */
  lemma KeyInjective(a: ImportedItem, b: ImportedItem)
    requires ':' !in a.className && ':' !in b.className
    requires KeyOf(a).Success? && KeyOf(b).Success?
    ensures KeyOf(a) == KeyOf(b) <==>
      a.className == b.className && a.incoming.uuid == b.incoming.uuid
  {
    var c1, u1 := a.className, a.incoming.uuid.value;
    var c2, u2 := b.className, b.incoming.uuid.value;
    if KeyOf(a) == KeyOf(b) {
      var k := c1 + ":" + u1;
      assert k == c2 + ":" + u2;
      assert k[|c1|] == ':' && k[|c2|] == ':';
      assert forall i :: 0 <= i < |c1| ==> k[i] == c1[i];
      assert forall i :: 0 <= i < |c2| ==> k[i] == c2[i];
      assert |c1| == |c2|;
      assert c1 == k[..|c1|] && c2 == k[..|c2|];
      assert u1 == k[|c1| + 1..] && u2 == k[|c2| + 1..];
    }
  }

  /** `getLastModified(incoming)`: `dateChanged` when it is set, otherwise
      `dateCreated`, which may be unset too; a record that is not
      `Auditable` is refused. */
  function LastModifiedOf(incoming: Incoming): (r: Result<Option<int>, IndexError>)
    ensures r.Success? <==> incoming.audit.Some?
    ensures r.Failure? ==> r.error == NotAuditable
    ensures r.Success? ==>
      var a := incoming.audit.value;
      && (r.value == a.dateChanged || r.value == a.dateCreated)
      && (a.dateChanged.Some? ==> r.value == a.dateChanged)
      && (r.value.None? <==> a.dateChanged.None? && a.dateCreated.None?)
  {
    match incoming.audit
    case None => Failure(NotAuditable)
    case Some(a) => if a.dateChanged.Some? then Success(a.dateChanged) else Success(a.dateCreated)
  }

  /** The two maps of `ItemToDateMap`. A stored `None` is the `null` that
      `lastModifiedMap.get` cannot tell from an absent key. */
  datatype Index = Index(lastModified: map<string, Option<int>>, packages: map<string, set<string>>)

  /** A fresh `ItemToDateMap`. */
  const Empty: Index := Index(map[], map[])

  /** `addItem(item, filename)`. The key is read first, then the timestamp;
      the rest is `Insert`. */
  function AddItem(idx: Index, item: ImportedItem, pkg: string): (r: Result<Index, IndexError>)
    ensures r.Success? ==> KeyOf(item).Success? && LastModifiedOf(item.incoming).Success?
    ensures r.Failure? && r.error.Inconsistent? ==>
      && KeyOf(item) == Success(r.error.key)
      && pkg in r.error.packages
      && (r.error.key in idx.packages ==> idx.packages[r.error.key] <= r.error.packages)
  {
    match KeyOf(item)
    case Failure(e) => Failure(e)
    case Success(key) =>
      match LastModifiedOf(item.incoming)
      case Failure(e) => Failure(e)
      case Success(stamp) => Insert(idx, Observation(pkg, key, stamp))
  }

  /** The body of `addItem` once key and timestamp are known. The package is
      added to the key's set before the timestamps are compared, so a
      conflict reports a set that already holds the current package. A stored
      null is replaced; a null arriving after a timestamp is a conflict,
      since `Date.equals(null)` is false. */
  function Insert(idx: Index, o: Observation): (r: Result<Index, IndexError>)
    ensures r.Failure? <==>
      o.key in idx.lastModified && idx.lastModified[o.key].Some? && idx.lastModified[o.key] != o.stamp
    ensures r.Success? && o.key in idx.lastModified && idx.lastModified[o.key].Some? ==>
      r.value.lastModified == idx.lastModified
    ensures r.Success? && (o.key !in idx.lastModified || idx.lastModified[o.key].None?) ==>
      o.key in r.value.lastModified && r.value.lastModified[o.key] == o.stamp
    ensures r.Success? ==>
      && o.key in r.value.packages && o.pkg in r.value.packages[o.key]
      && o.key in r.value.lastModified
      && (forall k :: k in idx.packages ==> k in r.value.packages && idx.packages[k] <= r.value.packages[k])
    ensures r.Success? ==> forall k :: k != o.key ==>
      && (k in r.value.lastModified <==> k in idx.lastModified)
      && (k in idx.lastModified ==> r.value.lastModified[k] == idx.lastModified[k])
      && (k in r.value.packages <==> k in idx.packages)
      && (k in idx.packages ==> r.value.packages[k] == idx.packages[k])
    ensures r.Failure? ==>
      && r.error.Inconsistent? && r.error.key == o.key && o.pkg in r.error.packages
      && (o.key in idx.packages ==> idx.packages[o.key] <= r.error.packages)
      && o.key in idx.lastModified && idx.lastModified[o.key].Some? && idx.lastModified[o.key] != o.stamp
  {
    var owners := (if o.key in idx.packages then idx.packages[o.key] else {}) + {o.pkg};
    var packages := idx.packages[o.key := owners];
    if o.key !in idx.lastModified || idx.lastModified[o.key].None? then
      Success(Index(idx.lastModified[o.key := o.stamp], packages))
    else if idx.lastModified[o.key] != o.stamp then
      Failure(Inconsistent(o.key, owners))
    else
      Success(Index(idx.lastModified, packages))
  }

  /** `size()`. */
  function Size(idx: Index): nat {
    |idx.lastModified|
  }

  /** `repeatedItems()`: the keys held by more than one package, each with
      its packages. */
  function RepeatedItems(idx: Index): map<string, set<string>> {
    map k | k in idx.packages && |idx.packages[k]| > 1 :: idx.packages[k]
  }

  /** The first item of a fresh index is recorded with its own timestamp and
      package. */
  lemma AddToEmpty(item: ImportedItem, pkg: string)
    requires KeyOf(item).Success? && LastModifiedOf(item.incoming).Success?
    ensures AddItem(Empty, item, pkg) ==
      Success(Index(map[KeyOf(item).value := LastModifiedOf(item.incoming).value], map[KeyOf(item).value := {pkg}]))
  {
    var key := KeyOf(item).value;
    var o := Observation(pkg, key, LastModifiedOf(item.incoming).value);
    assert AddItem(Empty, item, pkg) == Insert(Empty, o);
    assert {} + {pkg} == {pkg};
  }

  /** Adding again an item whose key already has this package and this
      timestamp changes nothing, so neither `size()` nor `repeatedItems()`
      moves. */
  lemma ReAddIsNoOp(idx: Index, item: ImportedItem, pkg: string)
    requires KeyOf(item).Success? && LastModifiedOf(item.incoming).Success?
    requires var key := KeyOf(item).value;
      && key in idx.packages && pkg in idx.packages[key]
      && key in idx.lastModified && idx.lastModified[key] == LastModifiedOf(item.incoming).value
    ensures AddItem(idx, item, pkg) == Success(idx)
    ensures Size(AddItem(idx, item, pkg).value) == Size(idx)
    ensures RepeatedItems(AddItem(idx, item, pkg).value) == RepeatedItems(idx)
  {
    var key := KeyOf(item).value;
    assert idx.packages[key] + {pkg} == idx.packages[key];
    assert idx.packages[key := idx.packages[key]] == idx.packages;
    assert idx.lastModified[key := idx.lastModified[key]] == idx.lastModified;
  }

  // ---------------------------------------------------------------------------
  // What an index records, stated over the sequence of items added to it

  /** An item offered to the index under the name of its package. */
  datatype Entry = Entry(pkg: string, item: ImportedItem)

  /** What `addItem` reads from an entry: package, key and timestamp. */
  datatype Observation = Observation(pkg: string, key: string, stamp: Option<int>)

  function Observe(e: Entry): Result<Observation, IndexError> {
    match KeyOf(e.item)
    case Failure(err) => Failure(err)
    case Success(key) =>
      match LastModifiedOf(e.item.incoming)
      case Failure(err) => Failure(err)
      case Success(stamp) => Success(Observation(e.pkg, key, stamp))
  }

  /** Every entry has a readable key and is `Auditable`. */
  predicate AllObservable(es: seq<Entry>) {
    forall i :: 0 <= i < |es| ==> Observe(es[i]).Success?
  }

  function Observations(es: seq<Entry>): (obs: seq<Observation>)
    requires AllObservable(es)
    ensures |obs| == |es|
  {
    if |es| == 0 then [] else [Observe(es[0]).value] + Observations(es[1..])
  }

  /** The keys seen. */
  function KeysOf(obs: seq<Observation>): set<string> {
    if |obs| == 0 then {} else KeysOf(obs[..|obs| - 1]) + {obs[|obs| - 1].key}
  }

  /** The packages in which `key` was seen. */
  function OwnersOf(obs: seq<Observation>, key: string): set<string> {
    if |obs| == 0 then {}
    else OwnersOf(obs[..|obs| - 1], key) + (if obs[|obs| - 1].key == key then {obs[|obs| - 1].pkg} else {})
  }

  /** The first timestamp seen for `key` that is not null; null if there is
      none. */
  function FirstStamp(obs: seq<Observation>, key: string): Option<int>
  {
    if |obs| == 0 then None
    else
      var first := FirstStamp(obs[..|obs| - 1], key);
      var last := obs[|obs| - 1];
      if first.Some? then first
      else if last.key == key then last.stamp
      else None
  }

  /** The first timestamp of a key is one that was seen for it. */
  lemma {:induction false} FirstStampSeen(obs: seq<Observation>, key: string) returns (i: nat)
    requires FirstStamp(obs, key).Some?
    ensures i < |obs| && obs[i].key == key && obs[i].stamp == FirstStamp(obs, key)
  {
    var init := obs[..|obs| - 1];
    if FirstStamp(init, key).Some? {
      i := FirstStampSeen(init, key);
      assert init[i] == obs[i];
    } else {
      i := |obs| - 1;
    }
  }

  /** A key has no first timestamp exactly when it was only ever seen
      without one. */
  lemma {:induction false} FirstStampNone(obs: seq<Observation>, key: string)
    ensures FirstStamp(obs, key).None? <==>
      forall i :: 0 <= i < |obs| && obs[i].key == key ==> obs[i].stamp.None?
  {
    if |obs| > 0 {
      var init := obs[..|obs| - 1];
      assert forall i :: 0 <= i < |init| ==> init[i] == obs[i];
      FirstStampNone(init, key);
      if FirstStamp(init, key).Some? {
        var i := FirstStampSeen(init, key);
        assert obs[i] == init[i];
      }
    }
  }

  /** A key is among those seen exactly when some observation carries it. */
  lemma {:induction false} SeenKeys(obs: seq<Observation>, key: string)
    ensures key in KeysOf(obs) <==> exists i :: 0 <= i < |obs| && obs[i].key == key
  {
    if |obs| > 0 {
      var init := obs[..|obs| - 1];
      SeenKeys(init, key);
      assert forall i :: 0 <= i < |init| ==> init[i] == obs[i];
    }
  }

  /** A key never seen has no packages and no timestamp. */
  lemma {:induction false} UnseenKey(obs: seq<Observation>, key: string)
    requires key !in KeysOf(obs)
    ensures OwnersOf(obs, key) == {} && FirstStamp(obs, key).None?
    ensures forall i :: 0 <= i < |obs| ==> obs[i].key != key
  {
    if |obs| > 0 {
      var init := obs[..|obs| - 1];
      UnseenKey(init, key);
      assert forall i :: 0 <= i < |init| ==> init[i] == obs[i];
    }
  }

  /** The packages of a key are those of the observations that carry it. */
  lemma {:induction false} SeenOwners(obs: seq<Observation>, key: string, pkg: string)
    ensures pkg in OwnersOf(obs, key) <==> exists i :: 0 <= i < |obs| && obs[i].key == key && obs[i].pkg == pkg
  {
    if |obs| > 0 {
      var init := obs[..|obs| - 1];
      SeenOwners(init, key, pkg);
      assert forall i :: 0 <= i < |init| ==> init[i] == obs[i];
    }
  }

  /** `o` agrees with every earlier timestamp of its key. */
  ghost predicate Agrees(obs: seq<Observation>, o: Observation) {
    forall i :: 0 <= i < |obs| && obs[i].key == o.key && obs[i].stamp.Some? ==> o.stamp == obs[i].stamp
  }

  /** Every observation agrees with those before it. */
  ghost predicate Consistent(obs: seq<Observation>) {
    |obs| == 0 || (Consistent(obs[..|obs| - 1]) && Agrees(obs[..|obs| - 1], obs[|obs| - 1]))
  }

  /** Pairwise reading: no key is seen with a timestamp and later with a
      different one (or with none); nulls before the first timestamp are
      allowed. */
  lemma {:induction false} ConsistentPairwise(obs: seq<Observation>)
    ensures Consistent(obs) <==>
      forall i, j :: 0 <= i < j < |obs| && obs[i].key == obs[j].key && obs[i].stamp.Some? ==>
        obs[j].stamp == obs[i].stamp
  {
    if |obs| > 0 {
      var init := obs[..|obs| - 1];
      assert forall i :: 0 <= i < |init| ==> init[i] == obs[i];
      ConsistentPairwise(init);
    }
  }

  /** `idx` is the index built from `obs`: one entry per key seen, the
      packages it was seen in, and its first non-null timestamp. */
  ghost predicate Describes(idx: Index, obs: seq<Observation>) {
    && idx.lastModified.Keys == KeysOf(obs)
    && idx.packages.Keys == KeysOf(obs)
    && (forall k :: k in idx.packages ==> idx.packages[k] == OwnersOf(obs, k))
    && (forall k :: k in idx.lastModified ==> idx.lastModified[k] == FirstStamp(obs, k))
  }

  lemma EmptyDescribesNothing()
    ensures Describes(Empty, [])
  {
  }

  /** In a consistent sequence every timestamp of a key is its first one. */
  lemma {:induction false} ConsistentStamps(obs: seq<Observation>, key: string)
    requires Consistent(obs)
    requires FirstStamp(obs, key).Some?
    ensures forall i :: 0 <= i < |obs| && obs[i].key == key && obs[i].stamp.Some? ==>
      obs[i].stamp == FirstStamp(obs, key)
  {
    var init := obs[..|obs| - 1];
    assert forall i :: 0 <= i < |init| ==> init[i] == obs[i];
    if FirstStamp(init, key).Some? {
      ConsistentStamps(init, key);
      var w := FirstStampSeen(init, key);
      assert obs[w] == init[w];
    } else {
      FirstStampNone(init, key);
    }
  }


  /** The first timestamp of `key` once `o` is seen, given the one before. */
  function StampAfter(first: Option<int>, o: Observation, key: string): Option<int> {
    if first.Some? then first else if o.key == key then o.stamp else None
  }

  lemma FirstStampSnoc(obs: seq<Observation>, o: Observation)
    ensures forall k :: FirstStamp(obs + [o], k) == StampAfter(FirstStamp(obs, k), o, k)
  {
    assert (obs + [o])[..|obs|] == obs;
  }

  /** The facts about `obs + [o]` that every case of `Insert` uses. */
  lemma Extend(idx: Index, obs: seq<Observation>, o: Observation)
    requires Describes(idx, obs)
    ensures KeysOf(obs + [o]) == KeysOf(obs) + {o.key}
    ensures forall k :: OwnersOf(obs + [o], k) == OwnersOf(obs, k) + (if o.key == k then {o.pkg} else {})
    ensures forall k :: FirstStamp(obs + [o], k) == StampAfter(FirstStamp(obs, k), o, k)
    ensures o.key !in idx.packages ==> OwnersOf(obs, o.key) == {}
    ensures FirstStamp(obs, o.key).None? <==>
      forall i :: 0 <= i < |obs| && obs[i].key == o.key ==> obs[i].stamp.None?
    ensures o.key !in idx.packages ==> forall i :: 0 <= i < |obs| ==> obs[i].key != o.key
  {
    assert (obs + [o])[..|obs|] == obs;
    FirstStampSnoc(obs, o);
    FirstStampNone(obs, o.key);
    if o.key !in idx.packages {
      UnseenKey(obs, o.key);
    }
  }

  lemma ConsistentSnoc(obs: seq<Observation>, o: Observation)
    ensures Consistent(obs + [o]) <==> Consistent(obs) && Agrees(obs, o)
  {
    assert (obs + [o])[..|obs|] == obs;
  }

  /** A successful `Insert` keeps the packages map in step with the
      extended sequence, whichever way the timestamps went. */
  lemma InsertOwners(idx: Index, obs: seq<Observation>, o: Observation)
    requires Describes(idx, obs)
    requires Insert(idx, o).Success?
    ensures var r := Insert(idx, o).value;
      && r.packages.Keys == KeysOf(obs + [o])
      && forall k :: k in r.packages ==> r.packages[k] == OwnersOf(obs + [o], k)
  {
    Extend(idx, obs, o);
  }

  /** `Insert` of a key with no timestamp yet: it succeeds, and the extended
      sequence stays consistent. */
  lemma InsertFirstStamp(idx: Index, obs: seq<Observation>, o: Observation)
    requires Describes(idx, obs) && Consistent(obs)
    requires o.key !in idx.lastModified || idx.lastModified[o.key].None?
    ensures Insert(idx, o).Success?
    ensures Consistent(obs + [o]) && Describes(Insert(idx, o).value, obs + [o])
  {
    InsertOwners(idx, obs, o);
    FreshStamps(idx, obs, o);
    FreshConsistent(idx, obs, o);
  }

  lemma FreshStamps(idx: Index, obs: seq<Observation>, o: Observation)
    requires Describes(idx, obs)
    requires o.key !in idx.lastModified || idx.lastModified[o.key].None?
    ensures Insert(idx, o).Success?
    ensures var r := Insert(idx, o).value;
      && r.lastModified.Keys == KeysOf(obs + [o])
      && forall k :: k in r.lastModified ==> r.lastModified[k] == FirstStamp(obs + [o], k)
  {
    Extend(idx, obs, o);
    var r := Insert(idx, o).value;
    assert r.lastModified == idx.lastModified[o.key := o.stamp];
  }

  lemma FreshConsistent(idx: Index, obs: seq<Observation>, o: Observation)
    requires Describes(idx, obs) && Consistent(obs)
    requires o.key !in idx.lastModified || idx.lastModified[o.key].None?
    ensures Consistent(obs + [o])
  {
    Extend(idx, obs, o);
    ConsistentSnoc(obs, o);
  }

  /** `Insert` of a key whose timestamp agrees. */
  lemma InsertSameStamp(idx: Index, obs: seq<Observation>, o: Observation)
    requires Describes(idx, obs) && Consistent(obs)
    requires o.key in idx.lastModified && idx.lastModified[o.key] == o.stamp && o.stamp.Some?
    ensures Insert(idx, o).Success?
    ensures Consistent(obs + [o]) && Describes(Insert(idx, o).value, obs + [o])
  {
    InsertOwners(idx, obs, o);
    Extend(idx, obs, o);
    ConsistentStamps(obs, o.key);
    ConsistentSnoc(obs, o);
  }

  /** `Insert` of a key whose timestamp differs: it fails, and the extended
      sequence is inconsistent. */
  lemma InsertClash(idx: Index, obs: seq<Observation>, o: Observation)
    requires Describes(idx, obs)
    requires o.key in idx.lastModified && idx.lastModified[o.key].Some? && idx.lastModified[o.key] != o.stamp
    ensures Insert(idx, o).Failure?
    ensures !Consistent(obs + [o])
  {
    var i := FirstStampSeen(obs, o.key);
    ConsistentSnoc(obs, o);
  }

  /** One `addItem`, against the sequence it extends: it succeeds exactly when
      the entry is readable and the extended sequence is consistent, and the
      index it returns describes the extended sequence. */
  lemma AddItemDescribes(idx: Index, obs: seq<Observation>, e: Entry)
    requires Describes(idx, obs) && Consistent(obs)
    ensures var r := AddItem(idx, e.item, e.pkg);
      r.Success? <==> Observe(e).Success? && Consistent(obs + [Observe(e).value])
    ensures var r := AddItem(idx, e.item, e.pkg);
      r.Success? ==> Describes(r.value, obs + [Observe(e).value])
  {
    if Observe(e).Success? {
      var o := Observe(e).value;
      assert AddItem(idx, e.item, e.pkg) == Insert(idx, o);
      if o.key !in idx.lastModified || idx.lastModified[o.key].None? {
        InsertFirstStamp(idx, obs, o);
      } else if idx.lastModified[o.key] == o.stamp {
        InsertSameStamp(idx, obs, o);
      } else {
        InsertClash(idx, obs, o);
      }
    }
  }

  /** A run of `addItem` calls in order, stopping at the first exception. */
  function AddAll(idx: Index, es: seq<Entry>): Result<Index, IndexError>
    decreases |es|
  {
    if |es| == 0 then Success(idx)
    else
      match AddItem(idx, es[0].item, es[0].pkg)
      case Failure(err) => Failure(err)
      case Success(next) => AddAll(next, es[1..])
  }

  /** Dropping observations from the end keeps a sequence consistent. */
  lemma {:induction false} ConsistentPrefix(a: seq<Observation>, b: seq<Observation>)
    ensures Consistent(a + b) ==> Consistent(a)
    decreases |b|
  {
    if |b| > 0 {
      assert (a + b)[..|a + b| - 1] == a + b[..|b| - 1];
      ConsistentPrefix(a, b[..|b| - 1]);
    } else {
      assert a + b == a;
    }
  }

  lemma AppendAssoc<T>(a: seq<T>, b: seq<T>, c: seq<T>)
    ensures a + (b + c) == (a + b) + c
  {
  }

  /** The first `addItem` of a run fails: so does the run, and the entries
      are not all readable or their sequence is not consistent. */
  lemma AddAllStops(idx: Index, obs: seq<Observation>, es: seq<Entry>)
    requires Describes(idx, obs) && Consistent(obs)
    requires |es| > 0 && AddItem(idx, es[0].item, es[0].pkg).Failure?
    ensures AddAll(idx, es).Failure?
    ensures !(AllObservable(es) && Consistent(obs + Observations(es)))
  {
    AddItemDescribes(idx, obs, es[0]);
    if AllObservable(es) {
      var o := Observe(es[0]).value;
      assert Observations(es) == [o] + Observations(es[1..]);
      assert obs + Observations(es) == (obs + [o]) + Observations(es[1..]);
      ConsistentPrefix(obs + [o], Observations(es[1..]));
    }
  }

  /** The first `addItem` of a run succeeds: the run goes on from the index it
      returns and the sequence extended by its observation. */
  lemma AddAllContinues(idx: Index, obs: seq<Observation>, es: seq<Entry>)
    requires Describes(idx, obs) && Consistent(obs)
    requires |es| > 0 && AddItem(idx, es[0].item, es[0].pkg).Success?
    ensures Observe(es[0]).Success?
    ensures var next := AddItem(idx, es[0].item, es[0].pkg).value;
      var o := Observe(es[0]).value;
      && AddAll(idx, es) == AddAll(next, es[1..])
      && Describes(next, obs + [o]) && Consistent(obs + [o])
  {
    AddItemDescribes(idx, obs, es[0]);
  }

  /** Entries are observable exactly when the first one is and the rest are. */
  lemma ObservableCons(es: seq<Entry>)
    requires |es| > 0
    ensures AllObservable(es) <==> Observe(es[0]).Success? && AllObservable(es[1..])
    ensures AllObservable(es) ==> Observations(es) == [Observe(es[0]).value] + Observations(es[1..])
  {
    assert forall i :: 0 < i < |es| ==> es[1..][i - 1] == es[i];
  }

  /** A run of `addItem` calls succeeds exactly when every entry is readable
      and the whole sequence seen so far is consistent; it then describes
      that sequence. */
  lemma {:induction false} AddAllDescribes(idx: Index, obs: seq<Observation>, es: seq<Entry>)
    requires Describes(idx, obs) && Consistent(obs)
    ensures AddAll(idx, es).Success? <==> AllObservable(es) && Consistent(obs + Observations(es))
    ensures AddAll(idx, es).Success? ==> Describes(AddAll(idx, es).value, obs + Observations(es))
    decreases |es|
  {
    if |es| == 0 {
      assert obs + Observations(es) == obs;
    } else if AddItem(idx, es[0].item, es[0].pkg).Failure? {
      AddAllStops(idx, obs, es);
    } else {
      AddAllContinues(idx, obs, es);
      ObservableCons(es);
      if AllObservable(es) {
        AppendAssoc(obs, [Observe(es[0]).value], Observations(es[1..]));
      }
      AddAllDescribes(AddItem(idx, es[0].item, es[0].pkg).value, obs + [Observe(es[0]).value], es[1..]);
    }
  }
}
