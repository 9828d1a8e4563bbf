# MetadataUtil, modelled in Dafny

This project models the metadata-package utilities of the OpenMRS EMR API
module, `MetadataUtil`:

- **The install gate.** `installMetadataPackageIfNecessary` derives a file
  name `<filenameBase>-<version>.zip` from a package's configuration. It checks
  that name against the pattern `(?:.+/)?\w+-(\d+).zip` and reads the version
  back. It skips the package when the package's group already holds that
  version or a later one. Otherwise it imports the file through the
  metadata-sharing importer. It returns whether it imported. Every failure
  inside the `try` is logged and gives `false`.
- **The batch.** `loadPackages` ORs the gate's results over the catalog in
  order. `setupSpecificMetadata` first narrows the catalog to the requested
  `filenameBase` names.
- **The consistency check.**
  `verifyNoMdsPackagesWithInconsistentVersionsOfTheSameItem` loads every
  package. It offers each item, and each item related to one, to an
  `ItemToDateMap`. That map keys items by class name and uuid, remembers the
  first non-null last-modified date seen and the packages seen, and throws
  when a key that has a date comes back with a different one (or with none).

Files and modules:

| file | module | contents |
|---|---|---|
| `wrappers.dfy` | `Wrappers` | `Option`, `Result` |
| `package_filename.dfy` | `PackageFilename` | the file-name pattern and Java's `Integer.toString` / `Integer.valueOf` |
| `catalog.dfy` | `Catalog` | package configuration, imported items, the class loader and importer as values, the name filter |
| `install.dfy` | `Install` | the gate, the batch, `setupSpecificMetadata` |
| `item_index.dfy` | `ItemIndex` | `ItemToDateMap` and what it records, stated over the sequence of items added |
| `validation.dfy` | `Validation` | the loop of the consistency check and its characterisation |

The operations are stated twice:

- once as the code does them (`InstallIfNecessary`, `LoadPackages`,
  `AddItem`, `Inspect`);
- once as independent reference definitions:
  - `MatchesAs` with `IsDirectoryWord`, the pattern read as a concatenation;
  - `Replay`, the batch as a fold;
  - `Describes` / `Consistent`, the index as a function of the sequence of
    observations.

Lemmas prove the two agree.

The installed-package store of the metadata-sharing service is a map from
group uuid to version. A successful import records its group with the version
read from the file name.

The class loader and the importer are values of `Environment`:

- the set of resolvable resources;
- what loading a file in an import mode yields (or that it throws);
- whether the import then completes.

Two behaviours of the code that a reader might not expect:

- **A missing version aborts the batch.** The file name is built at
  `MetadataUtil.java:123`, before the `try`. A package with a null version
  therefore throws out of `installMetadataPackageIfNecessary` and out of
  `loadPackages`. It does not count as one more failed package. This is
  `Step.MissingVersion` and `BatchRun.Aborted`.
- **The consistency check never tests whether the file exists.** It hands
  the loader's stream to the importer directly (lines 188-190). The model
  passes the file name to `load`.

## Model

| member | source | states |
|---|---|---|
| Install.InstallIfNecessary | api/src/main/java/org/openmrs/module/emrapi/utils/MetadataUtil.java:121-158 | the call escapes with an exception exactly when the version is missing; an import is always for the package's own group at its configured version, and only when that group is behind |
| Install.InstallDecision | api/src/main/java/org/openmrs/module/emrapi/utils/MetadataUtil.java:121-158 | the decision table in terms of the configuration: skipped iff the name is acceptable and the group is up to date; bad name iff the version is negative or the base is not a word under an optional directory; missing artifact, failed import and import each iff their conditions hold; the version parse never fails |
| Install.UpToDateNeedsNoImporter | api/src/main/java/org/openmrs/module/emrapi/utils/MetadataUtil.java:131-137 | an up-to-date package is skipped with the installed version whatever the resources and the importer are: neither is consulted |
| Install.GateOfLawful | api/src/main/java/org/openmrs/module/emrapi/utils/MetadataUtil.java:121-158 | the real gate raises only for a missing version, imports only its own group when behind, and a package not imported stays unimported against any store that is at least as far ahead |
| PackageFilename.StemIsDirectoryWord | api/src/main/java/org/openmrs/module/emrapi/utils/MetadataUtil.java:126 | the stem test, which splits at the last '/', accepts exactly a non-empty word or a non-empty line-terminator-free text, '/', and a non-empty word |
| PackageFilename.MatchComplete | api/src/main/java/org/openmrs/module/emrapi/utils/MetadataUtil.java:126-129 | every name of the pattern's shape (directory-prefixed word, '-', digits, any non-line-terminator, "zip") matches, and group 1 is its digit run |
| PackageFilename.MatchSound | api/src/main/java/org/openmrs/module/emrapi/utils/MetadataUtil.java:126-129 | every name the matcher accepts has the pattern's shape, split at its last '-' |
| PackageFilename.FilenameOfMatches | api/src/main/java/org/openmrs/module/emrapi/utils/MetadataUtil.java:123-128 | the derived name matches exactly when the version is not negative and the base is a stem, capturing the version's decimal digits |
| PackageFilename.FileVersionRoundTrip | api/src/main/java/org/openmrs/module/emrapi/utils/MetadataUtil.java:123-129 | reading back the digits written for a non-negative version gives that version: `Integer.valueOf` never throws there |
| Catalog.Keep | api/src/main/java/org/openmrs/module/emrapi/utils/MetadataUtil.java:76-81 | the kept packages are exactly those whose base is requested, with their multiplicities, in catalog order |
| Catalog.NarrowedUnique | api/src/main/java/org/openmrs/module/emrapi/utils/MetadataUtil.java:76-81 | two lists that both narrow the catalog to the requested names are equal, so the removal loop's outcome is determined |
| Install.LoadPackages | api/src/main/java/org/openmrs/module/emrapi/utils/MetadataUtil.java:85-93 | the store is the fold of the gate over the catalog; the run finishes iff every package has a version, and its flag is then the OR of "imported" over every package; otherwise it aborts at the first package without one |
| Install.SecondReplayIsQuiet | api/src/main/java/org/openmrs/module/emrapi/utils/MetadataUtil.java:85-93 | running the batch again from the store the first run left imports nothing and changes nothing |
| Install.LoadPackagesTwice | api/src/main/java/org/openmrs/module/emrapi/utils/MetadataUtil.java:85-93 | when the first `loadPackages` finishes, a second one over the same catalog returns false and leaves the store unchanged |
| Install.SetupSpecificMetadata | api/src/main/java/org/openmrs/module/emrapi/utils/MetadataUtil.java:73-83 | the narrowed package list is exactly the requested packages of the catalog in order; the result is the batch over that list only; it finishes iff every requested package has a version, so an unversioned package that was not requested cannot abort it; the only groups whose entry changes belong to requested packages of the catalog |
| ItemIndex.KeyOf | api/src/main/java/org/openmrs/module/emrapi/utils/MetadataUtil.java:260-266 | a key exists exactly when the uuid is readable |
| ItemIndex.KeyInjective | api/src/main/java/org/openmrs/module/emrapi/utils/MetadataUtil.java:260-266 | two items share a key iff they have the same class name and uuid |
| ItemIndex.LastModifiedOf | api/src/main/java/org/openmrs/module/emrapi/utils/MetadataUtil.java:246-258 | succeeds iff the record is auditable; the result is `dateChanged` whenever that is set and `dateCreated` otherwise, and is null iff both are |
| ItemIndex.AddItem | api/src/main/java/org/openmrs/module/emrapi/utils/MetadataUtil.java:224-244 | success needs a readable key and an auditable record; a conflict reports the item's key and a package set that already holds the current package and every earlier one |
| ItemIndex.Insert | api/src/main/java/org/openmrs/module/emrapi/utils/MetadataUtil.java:228-243 | fails iff the key holds a non-null date and the new date differs from it, even when the new one is null; on success the key's stored non-null date is kept, an absent or null one is replaced by the new date, the key's package set gains the package, and every other key's date and package set are unchanged |
| ItemIndex.ReAddIsNoOp | api/src/main/java/org/openmrs/module/emrapi/utils/MetadataUtil.java:224-280 | adding an item already recorded for that package with that date changes nothing, so `size()` and `repeatedItems()` stay the same |
| ItemIndex.ConsistentPairwise | api/src/main/java/org/openmrs/module/emrapi/utils/MetadataUtil.java:235-242 | a sequence of observations is accepted iff no key is seen with a date and later with a different one (or none) |
| ItemIndex.AddItemDescribes | api/src/main/java/org/openmrs/module/emrapi/utils/MetadataUtil.java:224-244 | one `addItem` succeeds iff the item is readable and the sequence extended by it is consistent, and the map then records exactly the keys seen, their packages and their first non-null date |
| ItemIndex.AddAllDescribes | api/src/main/java/org/openmrs/module/emrapi/utils/MetadataUtil.java:224-244 | the same for a run of `addItem` calls in order |
| Validation.ItemEntriesMembers | api/src/main/java/org/openmrs/module/emrapi/utils/MetadataUtil.java:193-198 | the entries offered for a collection are exactly its items and the items directly related to them, under the package's name |
| Validation.ItemEntriesLength | api/src/main/java/org/openmrs/module/emrapi/utils/MetadataUtil.java:193-198 | each item is offered once and each of its related items once: the count is the number of items plus the number of related items |
| Validation.ItemEntriesAt | api/src/main/java/org/openmrs/module/emrapi/utils/MetadataUtil.java:193-198 | item `i`'s entry comes after those of the items before it, is directly followed by the entries of its related items in their order, and then by those of the later items |
| Validation.TwoRelated | api/src/main/java/org/openmrs/module/emrapi/utils/MetadataUtil.java:193-198 | an item with two related items gives three entries: the item, then the two related items in order |
| Validation.PartEntriesMembers | api/src/main/java/org/openmrs/module/emrapi/utils/MetadataUtil.java:191-198 | the entries offered for a package are exactly those of its parts |
| Validation.PartEntriesAt | api/src/main/java/org/openmrs/module/emrapi/utils/MetadataUtil.java:191-198 | part `i`'s entries come after those of all earlier parts and before those of all later parts |
| Validation.InspectDescribes | api/src/main/java/org/openmrs/module/emrapi/utils/MetadataUtil.java:182-203 | the package loop succeeds iff every package has a version and loads, every item is readable and auditable, and the observations are consistent; the map then describes them |
| Validation.CheckCorrect | api/src/main/java/org/openmrs/module/emrapi/utils/MetadataUtil.java:178-216 | the whole check passes iff the catalog loads and its items are readable and consistent; `size()` is then the number of distinct keys and `repeatedItems()` the keys seen in more than one package, with those packages |
| Validation.ConflictNamesBoth | api/src/main/java/org/openmrs/module/emrapi/utils/MetadataUtil.java:235-242 | two packages that each hold only one item, with the same key, where the first copy has a non-null date and the second a different date (or none), fail the check, which names the key and both packages |
| Validation.OrderMatters | api/src/main/java/org/openmrs/module/emrapi/utils/MetadataUtil.java:235-242 | an item first seen without a date and then with one passes; the same two packages in the other order fail |

## Left out

- Logging, `System.out` and the import timer: they have no effect on results.
- `synchronized` on `loadPackages`: concurrency is not modelled; each run is
  sequential.
- Reading and deserialising `packages.xml` (lines 95-110): the catalog is a
  parameter. A failure there is a `RuntimeException` before any package is
  looked at.
- `setupStandardMetadata` (lines 57-64): it is `loadPackages` over the whole
  catalog that was read, which is `Install.LoadPackages`.
- `ConceptMapper` and the rest of the repository: not part of this model.
- The metadata-sharing service and importer are values, not code:
  - `Environment.load` and `Environment.commits` stand for
    `ImportConfig.valueOf`, `loadSerializedPackageStream` and
    `importPackage`;
  - a successful import is taken to record its group with the version from
    the file name.
- `PropertyUtils.getProperty(incoming, "uuid")` and the `Auditable` test are
  given as fields of the incoming record.
- A configuration's `filenameBase` is a string and never null. In the
  source a null base would become the text "null" in the file name
  (line 123), and in the consistency check `addItem(item, null)` would throw
  from `TreeSet.add` (line 233); neither case is modelled.
- ItemIndex.KeyOf: does not model a readable but null uuid. Java's string
  concatenation would turn it into the text "null"; the model counts it as
  unreadable.
- The iteration order of `TreeSet` / `TreeMap`: packages are sets and
  `repeatedItems()` is a map.
- Date values are whole milliseconds.
- Java regular expressions in general: only this one pattern is modelled,
  with the ASCII `\w` and `\d` classes.
  - The unescaped `.` before `zip` accepts any character except a line
    terminator.
  - Names derived from a configuration always have a real dot there, so
    this does not change any outcome.
- Install.SetupSpecificMetadata and Install.LoadPackages: they take any lawful
  gate rather than the installer itself. The installer's gate is
  `GateOf(env)`, lawful by `Install.GateOfLawful`. `Install.LoadPackagesTwice`
  shows the instantiation.
