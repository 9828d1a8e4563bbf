/** `verifyNoMdsPackagesWithInconsistentVersionsOfTheSameItem`: every
    package of the catalog is loaded and each of its items, and each item
    related to one, is offered to one shared `ItemToDateMap`. */
module Validation {
  import opened Wrappers
  import opened PackageFilename
  import opened Catalog
  import opened ItemIndex

  /** Why the check stops. */
  datatype CheckError =
    | Unversioned(filenameBase: string)  // `config.getVersion().toString()` on null
    | Unloadable(filename: string)       // the importer throws while loading
    | Rejected(error: IndexError)         // `addItem` throws

  /** The entries of the related items of one item: one level only, the
      related items' own related items are not visited. */
  function RelatedEntries(pkg: string, related: seq<ImportedItem>): (r: seq<Entry>)
    ensures |r| == |related|
    ensures forall i :: 0 <= i < |r| ==> r[i] == Entry(pkg, related[i])
  {
    seq(|related|, i requires 0 <= i < |related| => Entry(pkg, related[i]))
  }

  /** The entries one collection of items contributes, in the loop's order:
      each item, then its related items. */
  function ItemEntries(pkg: string, items: seq<ImportedItem>): (r: seq<Entry>) {
    if |items| == 0 then []
    else [Entry(pkg, items[0])] + RelatedEntries(pkg, items[0].related) + ItemEntries(pkg, items[1..])
  }

  /** The entries of every part of a package, part after part. */
  function PartEntries(pkg: string, parts: seq<seq<ImportedItem>>): (r: seq<Entry>) {
    if |parts| == 0 then []
    else ItemEntries(pkg, parts[0]) + PartEntries(pkg, parts[1..])
  }

  /** The entries offered for a collection are exactly its items and the
      items directly related to them, under the package's name. */
  lemma {:induction false} ItemEntriesMembers(pkg: string, items: seq<ImportedItem>)
    ensures forall e :: e in ItemEntries(pkg, items) <==>
      e.pkg == pkg && (e.item in items || exists it :: it in items && e.item in it.related)
  {
    if |items| > 0 {
      ItemEntriesMembers(pkg, items[1..]);
      assert forall it :: it in items <==> it == items[0] || it in items[1..];
    }
  }

  /** The entries offered for a package are exactly those of its parts. */
  lemma {:induction false} PartEntriesMembers(pkg: string, parts: seq<seq<ImportedItem>>)
    ensures forall e :: e in PartEntries(pkg, parts) <==>
      exists i :: 0 <= i < |parts| && e in ItemEntries(pkg, parts[i])
  {
    if |parts| > 0 {
      PartEntriesMembers(pkg, parts[1..]);
      var rest := PartEntries(pkg, parts[1..]);
      assert forall e :: e in rest <==> exists i :: 1 <= i < |parts| && e in ItemEntries(pkg, parts[i]);
    }
  }

  /** How many items the collection relates to, summed over its items. */
  function RelatedCount(items: seq<ImportedItem>): nat {
    if |items| == 0 then 0 else |items[0].related| + RelatedCount(items[1..])
  }

  /** The loop offers each item once and each of its related items once. */
  lemma {:induction false} ItemEntriesLength(pkg: string, items: seq<ImportedItem>)
    ensures |ItemEntries(pkg, items)| == |items| + RelatedCount(items)
  {
    if |items| > 0 {
      ItemEntriesLength(pkg, items[1..]);
    }
  }

  /** The entries of two collections one after the other are those of the
      first, then those of the second. */
  lemma {:induction false} ItemEntriesAppend(pkg: string, a: seq<ImportedItem>, b: seq<ImportedItem>)
    ensures ItemEntries(pkg, a + b) == ItemEntries(pkg, a) + ItemEntries(pkg, b)
  {
    if |a| > 0 {
      assert (a + b)[0] == a[0] && (a + b)[1..] == a[1..] + b;
      ItemEntriesAppend(pkg, a[1..], b);
    } else {
      assert a + b == b;
    }
  }

  /** A single item gives its own entry, then those of its related items. */
  lemma ItemEntriesOne(pkg: string, it: ImportedItem)
    ensures ItemEntries(pkg, [it]) == [Entry(pkg, it)] + RelatedEntries(pkg, it.related)
  {
    assert [it][1..] == [];
  }

  /** Where item `i` sits: after the entries of the items before it comes its
      own entry, directly followed by those of its related items in their
      order, and then the entries of the items after it. */
  lemma ItemEntriesAt(pkg: string, items: seq<ImportedItem>, i: nat)
    requires i < |items|
    ensures ItemEntries(pkg, items) ==
      ItemEntries(pkg, items[..i]) + [Entry(pkg, items[i])]
        + RelatedEntries(pkg, items[i].related) + ItemEntries(pkg, items[i + 1..])
  {
    var pre, one, post := items[..i], [items[i]], items[i + 1..];
    assert items == pre + (one + post);
    ItemEntriesAppend(pkg, pre, one + post);
    ItemEntriesAppend(pkg, one, post);
    ItemEntriesOne(pkg, items[i]);
    var a, b, c, d := ItemEntries(pkg, pre), [Entry(pkg, items[i])], RelatedEntries(pkg, items[i].related), ItemEntries(pkg, post);
    assert ItemEntries(pkg, items) == a + ((b + c) + d);
    assert a + ((b + c) + d) == a + b + c + d;
  }

  /** An item with two related items gives three entries: itself, then the
      two related ones in their order. */
  lemma TwoRelated(pkg: string, it: ImportedItem)
    requires |it.related| == 2
    ensures ItemEntries(pkg, [it]) ==
      [Entry(pkg, it), Entry(pkg, it.related[0]), Entry(pkg, it.related[1])]
  {
    ItemEntriesOne(pkg, it);
  }

  /** The entries of two lists of parts one after the other. */
  lemma {:induction false} PartEntriesAppend(pkg: string, a: seq<seq<ImportedItem>>, b: seq<seq<ImportedItem>>)
    ensures PartEntries(pkg, a + b) == PartEntries(pkg, a) + PartEntries(pkg, b)
  {
    if |a| > 0 {
      assert (a + b)[0] == a[0] && (a + b)[1..] == a[1..] + b;
      PartEntriesAppend(pkg, a[1..], b);
    } else {
      assert a + b == b;
    }
  }

  /** Where part `i` sits: all entries of the earlier parts, then its own,
      then those of the later parts. */
  lemma PartEntriesAt(pkg: string, parts: seq<seq<ImportedItem>>, i: nat)
    requires i < |parts|
    ensures PartEntries(pkg, parts) ==
      PartEntries(pkg, parts[..i]) + ItemEntries(pkg, parts[i]) + PartEntries(pkg, parts[i + 1..])
  {
    var one := [parts[i]];
    assert parts == parts[..i] + (one + parts[i + 1..]);
    PartEntriesAppend(pkg, parts[..i], one + parts[i + 1..]);
    PartEntriesAppend(pkg, one, parts[i + 1..]);
    assert one[1..] == [];
  }

  /** The name of the resource a package is loaded from. */
  function SourceOf(pkg: PackageConfig): string
    requires pkg.version.Some?
  {
    FilenameOf(pkg.filenameBase, pkg.version.value)
  }

  /** The loop over the packages, from the index built so far. */
  function Inspect(pkgs: seq<PackageConfig>, env: Environment, idx: Index): Result<Index, CheckError>
    decreases |pkgs|
  {
    if |pkgs| == 0 then Success(idx)
    else
      var pkg := pkgs[0];
      match pkg.version
      case None => Failure(Unversioned(pkg.filenameBase))
      case Some(v) =>
        match env.load(pkg.importMode, SourceOf(pkg))
        case None => Failure(Unloadable(SourceOf(pkg)))
        case Some(parts) =>
          match AddAll(idx, PartEntries(pkg.filenameBase, parts))
          case Failure(e) => Failure(Rejected(e))
          case Success(next) => Inspect(pkgs[1..], env, next)
  }

  /** `verifyNoMdsPackagesWithInconsistentVersionsOfTheSameItem` over the
      whole catalog; on success, the index whose `size()` and
      `repeatedItems()` are reported. */
  function Check(catalog: seq<PackageConfig>, env: Environment): Result<Index, CheckError> {
    Inspect(catalog, env, Empty)
  }

  // ---------------------------------------------------------------------------
  // The check, restated over what the packages hold

  /** Every package has a version and loads. */
  predicate Loadable(pkgs: seq<PackageConfig>, env: Environment) {
    forall i :: 0 <= i < |pkgs| ==>
      pkgs[i].version.Some? && env.load(pkgs[i].importMode, SourceOf(pkgs[i])).Some?
  }

  /** All the entries of a loadable catalog, package after package. */
  function CatalogEntries(pkgs: seq<PackageConfig>, env: Environment): seq<Entry>
    requires Loadable(pkgs, env)
    decreases |pkgs|
  {
    if |pkgs| == 0 then []
    else
      var pkg := pkgs[0];
      PartEntries(pkg.filenameBase, env.load(pkg.importMode, SourceOf(pkg)).value)
        + CatalogEntries(pkgs[1..], env)
  }

  lemma {:induction false} ObservableAppend(a: seq<Entry>, b: seq<Entry>)
    ensures AllObservable(a + b) <==> AllObservable(a) && AllObservable(b)
    ensures AllObservable(a + b) ==> Observations(a + b) == Observations(a) + Observations(b)
    decreases |a|
  {
    assert forall i :: 0 <= i < |a| ==> (a + b)[i] == a[i];
    assert forall i :: 0 <= i < |b| ==> (a + b)[|a| + i] == b[i];
    if |a| == 0 {
      assert a + b == b;
    } else if AllObservable(a + b) {
      ObservableAppend(a[1..], b);
      assert (a + b)[1..] == a[1..] + b;
      ObservableCons(a + b);
      ObservableCons(a);
    }
  }

  /** One package of a loadable catalog, split off. */
  lemma LoadableCons(pkgs: seq<PackageConfig>, env: Environment)
    requires |pkgs| > 0
    ensures Loadable(pkgs, env) <==>
      && pkgs[0].version.Some? && env.load(pkgs[0].importMode, SourceOf(pkgs[0])).Some?
      && Loadable(pkgs[1..], env)
  {
    assert forall i :: 0 < i < |pkgs| ==> pkgs[1..][i - 1] == pkgs[i];
  }

  /** The first package's items are rejected: so is the catalog. */
  lemma InspectStops(pkgs: seq<PackageConfig>, env: Environment, idx: Index, obs: seq<Observation>)
    requires Describes(idx, obs) && Consistent(obs)
    requires |pkgs| > 0 && Loadable(pkgs, env)
    requires AddAll(idx, PartEntries(pkgs[0].filenameBase, env.load(pkgs[0].importMode, SourceOf(pkgs[0])).value)).Failure?
    ensures !(AllObservable(CatalogEntries(pkgs, env)) && Consistent(obs + Observations(CatalogEntries(pkgs, env))))
  {
    var first := PartEntries(pkgs[0].filenameBase, env.load(pkgs[0].importMode, SourceOf(pkgs[0])).value);
    var rest := CatalogEntries(pkgs[1..], env);
    AddAllDescribes(idx, obs, first);
    ObservableAppend(first, rest);
    if AllObservable(first + rest) {
      AppendAssoc(obs, Observations(first), Observations(rest));
      ConsistentPrefix(obs + Observations(first), Observations(rest));
    }
  }

  /** The first package's items are accepted: the rest of the catalog is
      checked from the index they leave and the sequence they extend. */
  lemma InspectContinues(pkgs: seq<PackageConfig>, env: Environment, idx: Index, obs: seq<Observation>)
    requires Describes(idx, obs) && Consistent(obs)
    requires |pkgs| > 0 && Loadable(pkgs, env)
    requires AddAll(idx, PartEntries(pkgs[0].filenameBase, env.load(pkgs[0].importMode, SourceOf(pkgs[0])).value)).Success?
    ensures var first := PartEntries(pkgs[0].filenameBase, env.load(pkgs[0].importMode, SourceOf(pkgs[0])).value);
      && AllObservable(first)
      && var seen := obs + Observations(first);
      && Describes(AddAll(idx, first).value, seen) && Consistent(seen)
      && (AllObservable(CatalogEntries(pkgs, env)) <==> AllObservable(CatalogEntries(pkgs[1..], env)))
      && (AllObservable(CatalogEntries(pkgs, env)) ==>
            obs + Observations(CatalogEntries(pkgs, env)) == seen + Observations(CatalogEntries(pkgs[1..], env)))
  {
    var first := PartEntries(pkgs[0].filenameBase, env.load(pkgs[0].importMode, SourceOf(pkgs[0])).value);
    var rest := CatalogEntries(pkgs[1..], env);
    AddAllDescribes(idx, obs, first);
    ObservableAppend(first, rest);
    if AllObservable(first + rest) {
      AppendAssoc(obs, Observations(first), Observations(rest));
    }
  }

  /** The loop over the packages succeeds exactly when every package has a
      version and loads, every entry is readable and the whole sequence of
      observations is consistent; the index it leaves describes that
      sequence. */
  lemma {:induction false} InspectDescribes(pkgs: seq<PackageConfig>, env: Environment, idx: Index, obs: seq<Observation>)
    requires Describes(idx, obs) && Consistent(obs)
    ensures Inspect(pkgs, env, idx).Success? <==>
      && Loadable(pkgs, env)
      && AllObservable(CatalogEntries(pkgs, env))
      && Consistent(obs + Observations(CatalogEntries(pkgs, env)))
    ensures Inspect(pkgs, env, idx).Success? ==>
      Describes(Inspect(pkgs, env, idx).value, obs + Observations(CatalogEntries(pkgs, env)))
    decreases |pkgs|
  {
    if |pkgs| == 0 {
      assert obs + Observations(CatalogEntries(pkgs, env)) == obs;
    } else {
      LoadableCons(pkgs, env);
      var pkg := pkgs[0];
      if pkg.version.Some? && env.load(pkg.importMode, SourceOf(pkg)).Some? {
        var first := PartEntries(pkg.filenameBase, env.load(pkg.importMode, SourceOf(pkg)).value);
        if Loadable(pkgs, env) {
          if AddAll(idx, first).Failure? {
            InspectStops(pkgs, env, idx, obs);
          } else {
            InspectContinues(pkgs, env, idx, obs);
            InspectDescribes(pkgs[1..], env, AddAll(idx, first).value, obs + Observations(first));
          }
        } else if AddAll(idx, first).Success? {
          AddAllDescribes(idx, obs, first);
          InspectDescribes(pkgs[1..], env, AddAll(idx, first).value, obs + Observations(first));
        }
      }
    }
  }

  /** The whole check: it passes exactly when every package has a version
      and loads, every item is readable and `Auditable`, and no item is met
      with a timestamp and later with a different one. The reported
      `size()` is then the number of distinct keys and `repeatedItems()` the
      keys met in more than one package, each with those packages. */
  lemma CheckCorrect(catalog: seq<PackageConfig>, env: Environment)
    ensures Check(catalog, env).Success? <==>
      && Loadable(catalog, env)
      && AllObservable(CatalogEntries(catalog, env))
      && Consistent(Observations(CatalogEntries(catalog, env)))
    ensures Check(catalog, env).Success? ==>
      var obs := Observations(CatalogEntries(catalog, env));
      var idx := Check(catalog, env).value;
      && Size(idx) == |KeysOf(obs)|
      && RepeatedItems(idx) == map k | k in KeysOf(obs) && |OwnersOf(obs, k)| > 1 :: OwnersOf(obs, k)
  {
    EmptyDescribesNothing();
    InspectDescribes(catalog, env, Empty, []);
    if Loadable(catalog, env) && AllObservable(CatalogEntries(catalog, env)) {
      assert [] + Observations(CatalogEntries(catalog, env)) == Observations(CatalogEntries(catalog, env));
    }
    if Check(catalog, env).Success? {
      var idx := Check(catalog, env).value;
      assert |idx.lastModified| == |idx.lastModified.Keys|;
    }
  }

  // ---------------------------------------------------------------------------
  // Two packages sharing one item

  /** A package whose single part holds a single item, with nothing related. */
  predicate HoldsOnly(env: Environment, pkg: PackageConfig, item: ImportedItem) {
    && pkg.version.Some?
    && env.load(pkg.importMode, SourceOf(pkg)) == Some([[item]])
    && item.related == []
  }

  /** What a package holding one item gives the loop: one entry. */
  lemma OneEntry(env: Environment, pkg: PackageConfig, item: ImportedItem)
    requires HoldsOnly(env, pkg, item)
    ensures PartEntries(pkg.filenameBase, env.load(pkg.importMode, SourceOf(pkg)).value) == [Entry(pkg.filenameBase, item)]
  {
    var parts: seq<seq<ImportedItem>> := [[item]];
    assert parts[1..] == [] && parts[0][1..] == [];
    assert RelatedEntries(pkg.filenameBase, item.related) == [];
    assert ItemEntries(pkg.filenameBase, parts[0]) == [Entry(pkg.filenameBase, item)];
  }

  /** Inspecting a package holding one item is one `addItem`. */
  lemma InspectOne(pkgs: seq<PackageConfig>, env: Environment, idx: Index, item: ImportedItem)
    requires |pkgs| > 0 && HoldsOnly(env, pkgs[0], item)
    ensures var r := AddItem(idx, item, pkgs[0].filenameBase);
      Inspect(pkgs, env, idx) == if r.Failure? then Failure(Rejected(r.error)) else Inspect(pkgs[1..], env, r.value)
  {
    OneEntry(env, pkgs[0], item);
    var e := Entry(pkgs[0].filenameBase, item);
    assert [e][1..] == [];
    assert AddAll(idx, [e]) == AddItem(idx, item, pkgs[0].filenameBase);
  }

  /** The situation the check exists for: two packages carry the same item
      with different timestamps. The check stops at the second package and
      names both. */
  lemma ConflictNamesBoth(a: PackageConfig, b: PackageConfig, x: ImportedItem, y: ImportedItem, env: Environment)
    requires HoldsOnly(env, a, x) && HoldsOnly(env, b, y)
    requires KeyOf(x).Success? && KeyOf(x) == KeyOf(y)
    requires LastModifiedOf(x.incoming).Success? && LastModifiedOf(x.incoming).value.Some?
    requires LastModifiedOf(y.incoming).Success? && LastModifiedOf(y.incoming) != LastModifiedOf(x.incoming)
    ensures Check([a, b], env) == Failure(Rejected(Inconsistent(KeyOf(x).value, {a.filenameBase, b.filenameBase})))
  {
    var key := KeyOf(x).value;
    var afterA := Index(map[key := LastModifiedOf(x.incoming).value], map[key := {a.filenameBase}]);
    InspectOne([a, b], env, Empty, x);
    AddToEmpty(x, a.filenameBase);
    assert [a, b][1..] == [b];
    InspectOne([b], env, afterA, y);
    assert {a.filenameBase} + {b.filenameBase} == {a.filenameBase, b.filenameBase};
  }

  /** The check depends on the order of the catalog: an item met first
      without a timestamp and then with one passes, the same two packages
      the other way round do not, because a null arriving after a
      timestamp is a conflict while a stored null is simply replaced. */
  lemma OrderMatters(a: PackageConfig, b: PackageConfig, x: ImportedItem, y: ImportedItem, env: Environment)
    requires HoldsOnly(env, a, x) && HoldsOnly(env, b, y)
    requires KeyOf(x).Success? && KeyOf(x) == KeyOf(y)
    requires LastModifiedOf(x.incoming) == Success(None)
    requires LastModifiedOf(y.incoming).Success? && LastModifiedOf(y.incoming).value.Some?
    ensures Check([a, b], env).Success?
    ensures Check([b, a], env).Failure?
  {
    var key := KeyOf(x).value;
    assert [a, b][1..] == [b] && [b, a][1..] == [a];
    var afterA := Index(map[key := None], map[key := {a.filenameBase}]);
    InspectOne([a, b], env, Empty, x);
    AddToEmpty(x, a.filenameBase);
    InspectOne([b], env, afterA, y);
    assert [b][1..] == [];
    var afterB := Index(map[key := LastModifiedOf(y.incoming).value], map[key := {b.filenameBase}]);
    InspectOne([b, a], env, Empty, y);
    AddToEmpty(y, b.filenameBase);
    InspectOne([a], env, afterB, x);
  }
}
