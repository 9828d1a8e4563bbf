/** The package catalog (`MetadataPackagesConfig`) and the collaborators the
    installer and the validator consult: the class loader's resources and the
    metadata-sharing importer, both given as values rather than called. */
module Catalog {
  import opened Wrappers
  import opened PackageFilename

  /** One `MetadataPackageConfig` entry. The version is a boxed Java integer
      and so may be absent. */
  datatype PackageConfig = PackageConfig(
    filenameBase: string,
    version: Option<Int32>,
    groupUuid: string,
    importMode: string)

  /** The `Auditable` dates of an incoming record, in milliseconds. */
  datatype Audit = Audit(dateChanged: Option<int>, dateCreated: Option<int>)

  /** The incoming record of an imported item: its `uuid` property (`None`
      when it cannot be read) and its audit dates (`None` when the record is
      not `Auditable`). */
  datatype Incoming = Incoming(uuid: Option<string>, audit: Option<Audit>)

  /** An `ImportedItem`: the simple class name of its incoming record, the
      record, and the items pulled in with it. */
  datatype ImportedItem = ImportedItem(className: string, incoming: Incoming, related: seq<ImportedItem>)

  /** The outside world of both entry points.
      - `resources`: file names the class loader resolves;
      - `load(importMode, filename)`: the parts a fresh importer yields after
        `setImportConfig(ImportConfig.valueOf(importMode))` and
        `loadSerializedPackageStream`, or `None` when either throws;
      - `commits(importMode, filename)`: whether `importPackage()` then
        completes without throwing. */
  datatype Environment = Environment(
    resources: set<string>,
    load: (string, string) -> Option<seq<seq<ImportedItem>>>,
    commits: (string, string) -> bool)

  /** `a` is `b` with some elements left out, the rest in their order. */
  predicate IsSubsequence<T(==)>(a: seq<T>, b: seq<T>)
    decreases |b|
  {
    if |a| == 0 then true
    else if |b| == 0 then false
    else if a[0] == b[0] then IsSubsequence(a[1..], b[1..])
    else IsSubsequence(a, b[1..])
  }

  /** `kept` is `pkgs` narrowed to the packages whose `filenameBase` is one
      of `names`: each of those with all its occurrences, no other package,
      in catalog order. */
  ghost predicate Narrowed(kept: seq<PackageConfig>, pkgs: seq<PackageConfig>, names: seq<string>) {
    && (forall p :: multiset(kept)[p] == if p.filenameBase in names then multiset(pkgs)[p] else 0)
    && IsSubsequence(kept, pkgs)
  }

  /** The catalog narrowed by `setupSpecificMetadata`'s removal loop. */
  function Keep(pkgs: seq<PackageConfig>, names: seq<string>): (r: seq<PackageConfig>)
    ensures forall p :: p in r <==> p in pkgs && p.filenameBase in names
    ensures Narrowed(r, pkgs, names)
  {
    if |pkgs| == 0 then []
    else
      var rest := Keep(pkgs[1..], names);
      assert pkgs == [pkgs[0]] + pkgs[1..];
      if pkgs[0].filenameBase in names then
        [pkgs[0]] + rest
      else
        rest
  }

  /** A subsequence holds no element more often than the sequence it is
      taken from. */
  lemma {:induction false} SubsequenceMultiset<T>(a: seq<T>, b: seq<T>)
    requires IsSubsequence(a, b)
    ensures multiset(a) <= multiset(b)
    decreases |b|
  {
    if |a| > 0 {
      assert b == [b[0]] + b[1..];
      if a[0] == b[0] {
        SubsequenceMultiset(a[1..], b[1..]);
        assert a == [a[0]] + a[1..];
      } else {
        SubsequenceMultiset(a, b[1..]);
      }
    }
  }

  /** The narrowing is determined by the catalog and the names: there is only
      one such list, the one `Keep` computes. */
  lemma {:induction false} NarrowedUnique(a: seq<PackageConfig>, b: seq<PackageConfig>, pkgs: seq<PackageConfig>, names: seq<string>)
    requires Narrowed(a, pkgs, names) && Narrowed(b, pkgs, names)
    ensures a == b
    decreases |pkgs|
  {
    if |pkgs| > 0 {
      var x, rest := pkgs[0], pkgs[1..];
      assert pkgs == [x] + rest;
      NarrowedTail(a, pkgs, names);
      NarrowedTail(b, pkgs, names);
      if x.filenameBase in names {
        NarrowedUnique(a[1..], b[1..], rest, names);
        assert a == [a[0]] + a[1..] && b == [b[0]] + b[1..];
      } else {
        NarrowedUnique(a, b, rest, names);
      }
    }
  }

  /** Peeling the first package of the catalog off a narrowing: a requested
      one heads the list, whose tail narrows the rest; any other is not in the
      list, which narrows the rest. */
  lemma NarrowedTail(a: seq<PackageConfig>, pkgs: seq<PackageConfig>, names: seq<string>)
    requires |pkgs| > 0 && Narrowed(a, pkgs, names)
    ensures pkgs[0].filenameBase in names ==> |a| > 0 && a[0] == pkgs[0] && Narrowed(a[1..], pkgs[1..], names)
    ensures pkgs[0].filenameBase !in names ==> Narrowed(a, pkgs[1..], names)
  {
    var x, rest := pkgs[0], pkgs[1..];
    assert pkgs == [x] + rest;
    assert multiset(pkgs) == multiset{x} + multiset(rest);
    if |a| > 0 {
      assert a == [a[0]] + a[1..];
    }
    if |a| > 0 && a[0] == x {
      assert multiset(a) == multiset{x} + multiset(a[1..]);
    } else if |a| > 0 {
      SubsequenceMultiset(a, rest);
      assert multiset(a)[x] <= multiset(rest)[x];
    }
  }
}
