/** The application payload's trust documents: which distribution owns each shipped file,
    the manifest that lists the files, and the licence bill of materials that sums them. */
module PayloadManifest {
  import opened Options
  import opened Search
  import opened Sorting

  datatype File = File(sha256: string, bytes: nat)
  type Payload = map<string, File>

  datatype Owner = Owner(distribution: string, version: string)
  datatype Component = Component(distribution: string, version: string, licence: string)
  datatype Entry = Entry(path: string, sha256: string, bytes: nat, component: Component)

  // ---- Owners, from the RECORD files ----

  /** One installed distribution, in the order the directories are visited. */
  datatype Installed = Installed(owner: Owner, record: seq<string>)

  const SITE := "Lib/site-packages/"

  predicate Escapes(row: string) { row == ".." || StartsWith(row, "../") }

  ghost predicate Names(d: Installed, path: string)
  {
    exists row :: row in d.record && row != "" && !Escapes(row) && path == SITE + row
  }

  ghost predicate LastNaming(installed: seq<Installed>, n: nat, i: int, path: string)
    requires n <= |installed|
  {
    0 <= i < n && Names(installed[i], path) && forall j :: i < j < n ==> !Names(installed[j], path)
  }

  /** A RECORD names a path below the packages by the part behind their directory, unless that
      part climbs out of it first. */
  lemma NamesExactly(d: Installed, row: string)
    ensures Names(d, SITE + row) <==>
            row in d.record && row != "" && row != ".." && !(|row| >= 3 && row[0] == row[1] == '.' && row[2] == '/')
    ensures forall path :: Names(d, path) ==> StartsWith(path, "Lib/site-packages/")
  {
    assert row == (SITE + row)[|SITE|..];
    forall other | SITE + row == SITE + other ensures other == row { assert other == (SITE + other)[|SITE|..]; }
    assert "../" == ['.', '.', '/'];
    assert |row| >= 3 ==> row[..3] == [row[0], row[1], row[2]];
    forall path | Names(d, path) ensures StartsWith(path, SITE) {
      var r :| r in d.record && r != "" && !Escapes(r) && path == SITE + r;
      assert path[..|SITE|] == SITE;
    }
  }

  /** `build_site_packages_index`: a path belongs to the last distribution that names it. */
  method BuildIndex(installed: seq<Installed>) returns (index: map<string, Owner>, distributions: set<string>)
    ensures IndexOf(index, installed)
    ensures distributions == set d | d in installed :: d.owner.distribution
  {
    hide Names;
    index, distributions := map[], {};
    for i := 0 to |installed|
      invariant distributions == set d | d in installed[..i] :: d.owner.distribution
      invariant forall p :: p in index <==> exists k :: 0 <= k < i && Names(installed[k], p)
      invariant forall p, k :: p in index && LastNaming(installed, i, k, p) ==> index[p] == installed[k].owner
    {
      ghost var before := index;
      index := AddRecord(index, installed[i]);
      assert installed[..i + 1] == installed[..i] + [installed[i]];
      distributions := distributions + {installed[i].owner.distribution};
      forall p, k | p in index && LastNaming(installed, i + 1, k, p)
        ensures index[p] == installed[k].owner
      {
        if k < i { assert LastNaming(installed, i, k, p); }
      }
    }
    assert installed[..|installed|] == installed;
  }

  method AddRecord(index: map<string, Owner>, d: Installed) returns (next: map<string, Owner>)
    ensures forall p :: p in next <==> p in index || Names(d, p)
    ensures forall p :: p in next ==> next[p] == if Names(d, p) then d.owner else index[p]
  {
    next := index;
    for i := 0 to |d.record|
      invariant forall p :: p in next <==> p in index || Names(Installed(d.owner, d.record[..i]), p)
      invariant forall p :: p in next ==>
                  next[p] == if Names(Installed(d.owner, d.record[..i]), p) then d.owner else index[p]
    {
      var row := d.record[i];
      forall p
        ensures Names(Installed(d.owner, d.record[..i + 1]), p) <==>
                Names(Installed(d.owner, d.record[..i]), p) || (row != "" && !Escapes(row) && p == SITE + row)
      {
        NamesSnoc(d.owner, d.record[..i], row, p);
        assert d.record[..i + 1] == d.record[..i] + [row];
      }
      if row != "" && !Escapes(row) { next := next[SITE + row := d.owner]; }
    }
    assert d.record[..|d.record|] == d.record;
  }

  lemma NamesSnoc(owner: Owner, rows: seq<string>, row: string, p: string)
    ensures Names(Installed(owner, rows + [row]), p) <==>
            Names(Installed(owner, rows), p) || (row != "" && !Escapes(row) && p == SITE + row)
  {
    hide Escapes;
    var more := rows + [row];
    assert row in more;
    forall r | r in rows ensures r in more {}
    forall r | r in more ensures r in rows || r == row {}
  }

  // ---- Attribution ----

  /** The reviewed tables and policies an attribution consults. */
  datatype Policy = Policy(
    reviewed: seq<map<string, Component>>,  // external licences, models, wheels, MSVC runtime: in that order
    site: map<string, Owner>,
    pywin32Dlls: set<string>, pywin32Version: string,
    product: string, productVersion: string, productWheel: string, productLicence: string,
    interpreter: Component,
    embedded: set<string>,                  // the licences of embedded FFmpeg
    licenceOf: (string, string) -> string,
    versionOf: (string, string, string) -> string)

  const TRUST := {"app-payload-manifest.json", "SHA256SUMS", "LICENSE-BOM.md"}

  function Reviewed(tables: seq<map<string, Component>>, path: string): (r: Option<Component>)
    ensures r.Some? <==> exists i :: 0 <= i < |tables| && path in tables[i]
    ensures forall i :: 0 <= i < |tables| && path in tables[i] && (forall j :: 0 <= j < i ==> path !in tables[j]) ==>
              r == Some(tables[i][path])
  {
    if tables == [] then None
    else if path in tables[0] then Some(tables[0][path])
    else
      assert forall i :: 0 <= i < |tables[1..]| ==> tables[1..][i] == tables[i + 1];
      Reviewed(tables[1..], path)
  }

  /** The distribution a file is attributed to when no reviewed table names it. */
  function OwnerOf(y: Policy, path: string): Option<Owner>
  {
    if path == y.productWheel then Some(Owner(y.product, y.productVersion))
    else if StartsWith(path, SITE) then if path in y.site then Some(y.site[path]) else None
    else if path in y.pywin32Dlls then Some(Owner("pywin32", y.pywin32Version))
    else Some(Owner(y.interpreter.distribution, y.interpreter.version))
  }

  function Attribute(y: Policy, path: string): Option<Component>
  {
    var reviewed := Reviewed(y.reviewed, path);
    if reviewed.Some? then reviewed
    else if OwnerOf(y, path).None? then None
    else
      var o := OwnerOf(y, path).value;
      if o.distribution == y.interpreter.distribution then
        Some(Component(o.distribution, o.version, y.interpreter.licence))
      else if o.distribution == y.product then
        Some(Component(o.distribution, y.productVersion, y.productLicence))
      else
        Some(Component(o.distribution, y.versionOf(o.distribution, o.version, path), y.licenceOf(o.distribution, path)))
  }

  /** No reviewed table and no RECORD names an installed file. */
  ghost predicate Unprovenanced(y: Policy, path: string)
  {
    && StartsWith(path, SITE) && path != y.productWheel && path !in y.site
    && forall i :: 0 <= i < |y.reviewed| ==> path !in y.reviewed[i]
  }

  ghost predicate Shipped(payload: Payload, path: string) { path in payload && path !in TRUST }

  lemma UnattributedExactly(y: Policy, path: string)
    ensures Attribute(y, path).None? <==> Unprovenanced(y, path)
  {
  }

  /** The distributions the program gives rules of their own are three. */
  ghost predicate ThreeNames(y: Policy)
  {
    y.product != y.interpreter.distribution && "pywin32" !in {y.product, y.interpreter.distribution}
  }

  /** Outside the installed packages: the product's wheel is the product's, the copied DLLs are
      pywin32's, and everything else is the interpreter's. */
  lemma RootFileOwners(y: Policy, path: string)
    requires ThreeNames(y) && forall i :: 0 <= i < |y.reviewed| ==> path !in y.reviewed[i]
    ensures path == y.productWheel ==>
              Attribute(y, path) == Some(Component(y.product, y.productVersion, y.productLicence))
    ensures path != y.productWheel && !StartsWith(path, SITE) && path in y.pywin32Dlls ==>
              Attribute(y, path) == Some(Component(
                "pywin32", y.versionOf("pywin32", y.pywin32Version, path), y.licenceOf("pywin32", path)))
    ensures path != y.productWheel && !StartsWith(path, SITE) && path !in y.pywin32Dlls ==>
              Attribute(y, path) == Some(y.interpreter)
  {
  }

  /** A reviewed file is attributed as the first table that names it says. */
  lemma ReviewedFirst(y: Policy, path: string, i: nat)
    requires i < |y.reviewed| && path in y.reviewed[i] && forall j :: 0 <= j < i ==> path !in y.reviewed[j]
    ensures Attribute(y, path) == Some(y.reviewed[i][path])
  {
  }

  /** An index built from the installed distributions. */
  ghost predicate IndexOf(site: map<string, Owner>, installed: seq<Installed>)
  {
    && (forall p :: p in site <==> exists i :: 0 <= i < |installed| && Names(installed[i], p))
    && (forall p, i :: p in site && LastNaming(installed, |installed|, i, p) ==> site[p] == installed[i].owner)
  }

  /** From RECORD to the manifest: an installed file that no reviewed table names belongs to
      the last distribution whose RECORD names it, under that distribution's own
      version and licence. */
  lemma AttributionFollowsRecord(y: Policy, installed: seq<Installed>, path: string, i: int)
    requires IndexOf(y.site, installed) && LastNaming(installed, |installed|, i, path)
    requires path != y.productWheel && Reviewed(y.reviewed, path).None?
    ensures var d := installed[i].owner;
            && Attribute(y, path).Some?
            && Attribute(y, path).value.distribution == d.distribution
            && (d.distribution == y.interpreter.distribution ==>
                  Attribute(y, path).value == Component(d.distribution, d.version, y.interpreter.licence))
            && (d.distribution == y.product != y.interpreter.distribution ==>
                  Attribute(y, path).value == Component(d.distribution, y.productVersion, y.productLicence))
            && (d.distribution != y.interpreter.distribution && d.distribution != y.product ==>
                  && Attribute(y, path).value.version == y.versionOf(d.distribution, d.version, path)
                  && Attribute(y, path).value.licence == y.licenceOf(d.distribution, path))
  {
    var row :| row in installed[i].record && row != "" && !Escapes(row) && path == SITE + row;
    assert path[..|SITE|] == SITE;
  }

  // ---- Hashing the tree ----

  ghost predicate Lists(listing: seq<string>, payload: Payload)
  {
    NoDuplicates(listing) && forall p :: p in listing <==> p in payload
  }

  ghost function EntryOf(y: Policy, payload: Payload, path: string): Entry
    requires path in payload && Attribute(y, path).Some?
  {
    Entry(path, payload[path].sha256, payload[path].bytes, Attribute(y, path).value)
  }

  /** The entries are those of the shipped files, each once. */
  ghost predicate Describes(y: Policy, payload: Payload, entries: seq<Entry>)
  {
    && NoDuplicates(entries)
    && (forall e :: e in entries ==>
          Shipped(payload, e.path) && Attribute(y, e.path).Some? && e == EntryOf(y, payload, e.path))
    && (forall p :: Shipped(payload, p) ==>
          Attribute(y, p).Some? && EntryOf(y, payload, p) in entries)
  }

  /** `hash_payload_tree`: refused exactly when some shipped file has no owner. */
  method HashPayloadTree(y: Policy, payload: Payload, listing: seq<string>) returns (r: Option<seq<Entry>>)
    requires Lists(listing, payload)
    ensures r.None? <==> exists p :: Shipped(payload, p) && Unprovenanced(y, p)
    ensures r.Some? ==> Describes(y, payload, r.value)
  {
    hide Attribute, Unprovenanced;
    var entries: seq<Entry> := [];
    for i := 0 to |listing|
      invariant NoDuplicates(entries)
      invariant forall e :: e in entries ==>
                  && e.path in listing[..i] && Shipped(payload, e.path) && Attribute(y, e.path).Some?
                  && e == EntryOf(y, payload, e.path)
      invariant forall p :: p in listing[..i] && p !in TRUST ==>
                  Attribute(y, p).Some? && EntryOf(y, payload, p) in entries
    {
      var p := listing[i];
      assert p in payload && p !in listing[..i];
      assert listing[..i + 1] == listing[..i] + [p];
      if p !in TRUST {
        UnattributedExactly(y, p);
        var component := Attribute(y, p);
        if component.None? { return None; }
        entries := entries + [Entry(p, payload[p].sha256, payload[p].bytes, component.value)];
      }
    }
    assert listing[..|listing|] == listing;
    forall p | Shipped(payload, p) ensures !Unprovenanced(y, p) { UnattributedExactly(y, p); }
    return Some(entries);
  }

  // ---- The manifest ----

  predicate PathLeq(a: Entry, b: Entry) { Leq(a.path, b.path) }

  lemma PathOrder()
    ensures TotalPreorder(PathLeq)
  {
    forall a: Entry, b: Entry ensures PathLeq(a, b) || PathLeq(b, a) { LeqTotal(a.path, b.path); }
    forall a: Entry, b: Entry, c: Entry | PathLeq(a, b) && PathLeq(b, c) ensures PathLeq(a, c) {
      LeqTransitive(a.path, b.path, c.path);
    }
  }

  datatype Manifest = Manifest(fileCount: nat, totalBytes: int, files: seq<Entry>)

  function Bytes(e: Entry): int { e.bytes }
  function One(e: Entry): int { 1 }

  /** `build_app_manifest`, as far as it depends on the entries. */
  function BuildManifest(entries: seq<Entry>): Manifest
  {
    var ordered := Sort(PathLeq, entries);
    Manifest(|ordered|, Sum(Bytes, ordered), ordered)
  }

  lemma DescribedPaths(y: Policy, payload: Payload, entries: seq<Entry>)
    requires Describes(y, payload, entries)
    ensures Untied(PathLeq, entries)
  {
    hide Attribute;
    forall a, b | a in entries && b in entries && PathLeq(a, b) && PathLeq(b, a)
      ensures a == b
    {
      LeqTotal(a.path, b.path);
    }
  }

  /** The manifest lists exactly the shipped files, each once, in the order of their paths,
      and counts them. */
  lemma ManifestComplete(y: Policy, payload: Payload, entries: seq<Entry>)
    requires Describes(y, payload, entries)
    ensures var m := BuildManifest(entries);
            && Describes(y, payload, m.files)
            && (forall i, j :: 0 <= i < j < |m.files| ==>
                  Leq(m.files[i].path, m.files[j].path) && m.files[i].path != m.files[j].path)
            && m.fileCount == |payload.Keys - TRUST|
            && m.totalBytes == Sum(Bytes, entries)
  {
    hide Attribute, Leq, Sort, Sum;
    var m := BuildManifest(entries);
    SortElements(PathLeq, entries);
    PathOrder();
    SortSorts(PathLeq, entries);
    SortKeeps(PathLeq, entries, Bytes);
    forall i, j | 0 <= i < j < |m.files|
      ensures Leq(m.files[i].path, m.files[j].path) && m.files[i].path != m.files[j].path
    {
      assert PathLeq(m.files[i], m.files[j]);
      assert m.files[i] in entries && m.files[j] in entries;
    }
    CountShipped(y, payload, m.files);
  }

  ghost predicate Listed(files: seq<Entry>, p: string) { exists e :: e in files && e.path == p }

  /** In plain words: all but the three trust documents are listed, each with its own digest and
      size. */
  lemma ManifestLists(y: Policy, payload: Payload, entries: seq<Entry>)
    requires Describes(y, payload, entries)
    ensures var files := BuildManifest(entries).files;
            && (forall e :: e in files ==>
                  e.path in payload && e.sha256 == payload[e.path].sha256 && e.bytes == payload[e.path].bytes)
            && (forall p :: Listed(files, p) <==>
                  p in payload && p !in {"app-payload-manifest.json", "SHA256SUMS", "LICENSE-BOM.md"})
  {
    hide Attribute, Sort;
    var files := BuildManifest(entries).files;
    SortElements(PathLeq, entries);
    forall p
      ensures Listed(files, p) <==> Shipped(payload, p)
    {
      if Shipped(payload, p) { assert EntryOf(y, payload, p) in files; }
      if Listed(files, p) {
        var e :| e in files && e.path == p;
        assert e in entries;
      }
    }
  }

  lemma CountShipped(y: Policy, payload: Payload, files: seq<Entry>)
    requires Describes(y, payload, files)
    requires forall i, j :: 0 <= i < j < |files| ==> files[i].path != files[j].path
    ensures |files| == |payload.Keys - TRUST|
  {
    hide Attribute;
    var paths := seq(|files|, i requires 0 <= i < |files| => files[i].path);
    forall p
      ensures p in paths <==> p in payload.Keys - TRUST
    {
      if p in paths {
        var i :| 0 <= i < |paths| && paths[i] == p;
        assert files[i] in files;
      }
      if Shipped(payload, p) {
        var i :| 0 <= i < |files| && files[i] == EntryOf(y, payload, p);
        assert paths[i] == p;
      }
    }
    DistinctCount(paths, payload.Keys - TRUST);
  }

  /** Whatever order the tree was walked in, the manifest is the same. */
  lemma ManifestIsCanonical(y: Policy, payload: Payload, one: seq<Entry>, other: seq<Entry>)
    requires Describes(y, payload, one) && Describes(y, payload, other)
    ensures BuildManifest(one) == BuildManifest(other)
  {
    hide Attribute;
    forall e
      ensures e in one <==> e in other
    {
    }
    SameElementsSameMultiset(one, other);
    PathOrder();
    DescribedPaths(y, payload, one);
    SortForgetsOrder(PathLeq, one, other);
  }

  // ---- The licence bill of materials ----

  datatype Row = Row(component: Component, files: nat, bytes: int)

  /** The component an entry is counted under: embedded FFmpeg is told apart from PyAV. */
  function Heading(y: Policy, e: Entry): Component
  {
    var c := e.component;
    if c.distribution == "av" && c.licence in y.embedded then
      Component("av (embedded FFmpeg)", y.versionOf(c.distribution, c.version, e.path), c.licence)
    else c
  }

  function Headings(y: Policy): Entry -> Component { (e: Entry) => Heading(y, e) }

  function Group(heading: Entry -> Component, k: Component, entries: seq<Entry>): seq<Entry>
  {
    if entries == [] then []
    else (if heading(entries[0]) == k then [entries[0]] else []) + Group(heading, k, entries[1..])
  }

  predicate ComponentLeq(a: Component, b: Component)
  {
    if a.distribution != b.distribution then Leq(a.distribution, b.distribution)
    else if a.version != b.version then Leq(a.version, b.version)
    else Leq(a.licence, b.licence)
  }

  function RowOf(heading: Entry -> Component, entries: seq<Entry>, k: Component): Row
  {
    Row(k, |Group(heading, k, entries)|, Sum(Bytes, Group(heading, k, entries)))
  }

  function FilesOf(r: Row): int { r.files }
  function BytesOf(r: Row): int { r.bytes }

  function Components(rows: seq<Row>): seq<Component>
  {
    seq(|rows|, i requires 0 <= i < |rows| => rows[i].component)
  }

  ghost predicate Occurs(heading: Entry -> Component, entries: seq<Entry>, k: Component)
  {
    exists i :: 0 <= i < |entries| && heading(entries[i]) == k
  }

  /** One row for every heading that occurs and for no other, in the order of the headings. */
  ghost predicate Summarises(heading: Entry -> Component, entries: seq<Entry>, rows: seq<Row>)
  {
    && NoDuplicates(Components(rows)) && Sorted(ComponentLeq, Components(rows))
    && (forall k :: k in Components(rows) <==> Occurs(heading, entries, k))
    && (forall i :: 0 <= i < |rows| ==> rows[i] == RowOf(heading, entries, rows[i].component))
  }

  lemma ComponentLeqTransitive(a: Component, b: Component, c: Component)
    requires ComponentLeq(a, b) && ComponentLeq(b, c)
    ensures ComponentLeq(a, c)
  {
    hide Leq;
    if Leq(a.distribution, b.distribution) && Leq(b.distribution, c.distribution) {
      LeqTransitive(a.distribution, b.distribution, c.distribution);
    }
    if Leq(a.version, b.version) && Leq(b.version, c.version) { LeqTransitive(a.version, b.version, c.version); }
    if Leq(a.licence, b.licence) && Leq(b.licence, c.licence) { LeqTransitive(a.licence, b.licence, c.licence); }
    LeqTotal(a.distribution, b.distribution);
    LeqTotal(a.version, b.version);
  }

  lemma ComponentLeqTotal(a: Component, b: Component)
    ensures ComponentLeq(a, b) || ComponentLeq(b, a)
    ensures ComponentLeq(a, b) && ComponentLeq(b, a) ==> a == b
  {
    hide Leq;
    LeqTotal(a.distribution, b.distribution);
    LeqTotal(a.version, b.version);
    LeqTotal(a.licence, b.licence);
  }

  lemma ComponentOrder()
    ensures TotalPreorder(ComponentLeq)
    ensures forall s :: Untied(ComponentLeq, s)
  {
    hide ComponentLeq;
    forall a: Component, b: Component
      ensures ComponentLeq(a, b) || ComponentLeq(b, a)
      ensures ComponentLeq(a, b) && ComponentLeq(b, a) ==> a == b
    {
      ComponentLeqTotal(a, b);
    }
    forall a: Component, b: Component, c: Component | ComponentLeq(a, b) && ComponentLeq(b, c)
      ensures ComponentLeq(a, c)
    {
      ComponentLeqTransitive(a, b, c);
    }
  }

  /** The summary of a list of entries is unique. */
  lemma SummaryIsUnique(heading: Entry -> Component, entries: seq<Entry>, one: seq<Row>, other: seq<Row>)
    requires Summarises(heading, entries, one) && Summarises(heading, entries, other)
    ensures one == other
  {
    hide RowOf, ComponentLeq, Occurs;
    var a, b := Components(one), Components(other);
    ComponentOrder();
    SameElementsSameMultiset(a, b);
    SortedUnique(ComponentLeq, a, b);
    assert forall i :: 0 <= i < |one| ==> one[i].component == a[i] && other[i].component == b[i];
  }

  lemma {:induction false} SumBump<T>(g: T -> int, h: T -> int, keys: seq<T>, k: T, d: int)
    requires NoDuplicates(keys)
    requires forall x :: x in keys ==> h(x) == g(x) + if x == k then d else 0
    ensures Sum(h, keys) == Sum(g, keys) + if k in keys then d else 0
  {
    if keys != [] {
      assert keys == [keys[0]] + keys[1..];
      SumBump(g, h, keys[1..], k, d);
    }
  }

  lemma {:induction false} SumZero<T>(g: T -> int, keys: seq<T>)
    requires forall x :: x in keys ==> g(x) == 0
    ensures Sum(g, keys) == 0
  {
    if keys != [] {
      assert keys == [keys[0]] + keys[1..];
      SumZero(g, keys[1..]);
    }
  }

  /** Summing group by group is summing. */
  lemma {:induction false} GroupsConserve(heading: Entry -> Component, keys: seq<Component>,
                                          entries: seq<Entry>, f: Entry -> int)
    requires NoDuplicates(keys) && forall e :: e in entries ==> heading(e) in keys
    ensures Sum((k: Component) => Sum(f, Group(heading, k, entries)), keys) == Sum(f, entries)
  {
    var total := (k: Component) => Sum(f, Group(heading, k, entries));
    if entries == [] {
      SumZero(total, keys);
    } else {
      var e, rest := entries[0], entries[1..];
      var less := (k: Component) => Sum(f, Group(heading, k, rest));
      forall k
        ensures total(k) == less(k) + if k == heading(e) then f(e) else 0
      {
        assert ([e] + Group(heading, k, rest))[1..] == Group(heading, k, rest);
        assert [] + Group(heading, k, rest) == Group(heading, k, rest);
      }
      SumBump(less, total, keys, heading(e), f(e));
      GroupsConserve(heading, keys, rest, f);
    }
  }

  lemma {:induction false} SumOnes(entries: seq<Entry>)
    ensures Sum(One, entries) == |entries|
  {
    if entries != [] { SumOnes(entries[1..]); }
  }

  lemma {:induction false} SumOfRows(rows: seq<Row>, f: Row -> int, g: Component -> int)
    requires forall i :: 0 <= i < |rows| ==> f(rows[i]) == g(rows[i].component)
    ensures Sum(f, rows) == Sum(g, Components(rows))
  {
    if rows != [] {
      SumOfRows(rows[1..], f, g);
      assert Components(rows)[1..] == Components(rows[1..]);
    }
  }

  /** The bill of materials and the manifest agree: file counts and bytes over all rows are
      the manifest's own totals. */
  lemma BomAgreesWithManifest(y: Policy, entries: seq<Entry>, rows: seq<Row>)
    requires Summarises(Headings(y), BuildManifest(entries).files, rows)
    ensures Sum(FilesOf, rows) == BuildManifest(entries).fileCount
    ensures Sum(BytesOf, rows) == BuildManifest(entries).totalBytes
  {
    hide Group, Sum, Sort, Headings, ComponentLeq;
    var heading := Headings(y);
    var files, keys := BuildManifest(entries).files, Components(rows);
    forall e | e in files
      ensures heading(e) in keys
    {
      var i :| 0 <= i < |files| && files[i] == e;
      assert Occurs(heading, files, heading(e));
    }
    var counts := (k: Component) => Sum(One, Group(heading, k, files));
    var sizes := (k: Component) => Sum(Bytes, Group(heading, k, files));
    forall i | 0 <= i < |rows| ensures FilesOf(rows[i]) == counts(rows[i].component) {
      SumOnes(Group(heading, rows[i].component, files));
    }
    SumOfRows(rows, FilesOf, counts);
    SumOfRows(rows, BytesOf, sizes);
    GroupsConserve(heading, keys, files, One);
    GroupsConserve(heading, keys, files, Bytes);
    SumOnes(files);
  }

  lemma {:induction false} GroupSnoc(heading: Entry -> Component, k: Component, entries: seq<Entry>, e: Entry)
    ensures Group(heading, k, entries + [e]) == Group(heading, k, entries) + if heading(e) == k then [e] else []
  {
    if entries != [] {
      GroupSnoc(heading, k, entries[1..], e);
      assert (entries + [e])[1..] == entries[1..] + [e];
    }
  }

  lemma NoGroups(heading: Entry -> Component)
    ensures forall k :: Group(heading, k, []) == []
  {
  }

  /** The dictionary of groups, with its keys in the order they were first met. */
  ghost predicate Grouped(heading: Entry -> Component, entries: seq<Entry>,
                          groups: map<Component, seq<Entry>>, keys: seq<Component>)
  {
    && NoDuplicates(keys)
    && (forall k :: k in keys <==> k in groups)
    && (forall k :: k in groups ==> groups[k] == Group(heading, k, entries) != [])
    && (forall k :: k !in groups ==> Group(heading, k, entries) == [])
    && (forall i :: 0 <= i < |entries| ==> heading(entries[i]) in keys)
  }

  method GroupEntries(heading: Entry -> Component, entries: seq<Entry>)
    returns (groups: map<Component, seq<Entry>>, keys: seq<Component>)
    ensures Grouped(heading, entries, groups, keys)
  {
    hide Group;
    NoGroups(heading);
    groups, keys := map[], [];
    assert entries[..0] == [];
    for i := 0 to |entries|
      invariant Grouped(heading, entries[..i], groups, keys)
    {
      var e := entries[i];
      var k := heading(e);
      assert entries[..i + 1] == entries[..i] + [e];
      forall x ensures Group(heading, x, entries[..i + 1]) ==
                       Group(heading, x, entries[..i]) + if k == x then [e] else [] {
        GroupSnoc(heading, x, entries[..i], e);
      }
      if k !in groups {
        groups := groups[k := [e]];
        keys := keys + [k];
      } else {
        groups := groups[k := groups[k] + [e]];
      }
    }
    assert entries[..|entries|] == entries;
  }

  lemma {:induction false} GroupOccurs(heading: Entry -> Component, k: Component, entries: seq<Entry>)
    ensures Group(heading, k, entries) != [] <==> Occurs(heading, entries, k)
  {
    if entries != [] {
      GroupOccurs(heading, k, entries[1..]);
      assert forall i :: 0 <= i < |entries| - 1 ==> entries[1..][i] == entries[i + 1];
      if i :| 0 <= i < |entries| && heading(entries[i]) == k {
        assert i > 0 ==> heading(entries[1..][i - 1]) == k;
      }
      if Occurs(heading, entries[1..], k) {
        var i :| 0 <= i < |entries[1..]| && heading(entries[1..][i]) == k;
        assert heading(entries[i + 1]) == k;
      }
    }
  }

  /** `render_app_license_bom`: group in path order, then one row per group, in order. */
  method RenderBom(y: Policy, entries: seq<Entry>) returns (rows: seq<Row>)
    ensures Summarises(Headings(y), BuildManifest(entries).files, rows)
  {
    hide Sort, Group, Sum, Occurs, Headings, ComponentLeq;
    var heading := Headings(y);
    var ordered := Sort(PathLeq, entries);
    var groups, keys := GroupEntries(heading, ordered);
    var sortedKeys := Sort(ComponentLeq, keys);
    SortElements(ComponentLeq, keys);
    ComponentOrder();
    SortSorts(ComponentLeq, keys);
    rows := seq(|sortedKeys|, i requires 0 <= i < |sortedKeys| && sortedKeys[i] in groups =>
      Row(sortedKeys[i], |groups[sortedKeys[i]]|, Sum(Bytes, groups[sortedKeys[i]])));
    assert Components(rows) == sortedKeys;
    forall k
      ensures k in sortedKeys <==> Occurs(heading, ordered, k)
    {
      GroupOccurs(heading, k, ordered);
    }
  }

  /** The two kinds of file in the PyAV wheel never share a row: no row of "av" has a licence of
      embedded FFmpeg, and the files under such a licence have rows of their own. */
  lemma EmbeddedApart(y: Policy, entries: seq<Entry>, rows: seq<Row>)
    requires Summarises(Headings(y), entries, rows)
    ensures forall i :: 0 <= i < |rows| ==>
              !(rows[i].component.distribution == "av" && rows[i].component.licence in y.embedded)
    ensures forall e :: e in entries && e.component.distribution == "av" && e.component.licence in y.embedded ==>
              Component("av (embedded FFmpeg)", y.versionOf("av", e.component.version, e.path), e.component.licence)
              in Components(rows)
    ensures forall e :: e in entries && !(e.component.distribution == "av" && e.component.licence in y.embedded) ==>
              e.component in Components(rows)
  {
    hide RowOf, ComponentLeq;
    assert |"av"| == 2 && |"av (embedded FFmpeg)"| == 20;
    forall i | 0 <= i < |rows|
      ensures !(rows[i].component.distribution == "av" && rows[i].component.licence in y.embedded)
    {
      assert rows[i].component == Components(rows)[i] && Occurs(Headings(y), entries, rows[i].component);
    }
    forall e | e in entries ensures Heading(y, e) in Components(rows) {
      var i :| 0 <= i < |entries| && entries[i] == e;
      assert Headings(y)(entries[i]) == Heading(y, e);
      assert Occurs(Headings(y), entries, Heading(y, e));
    }
  }
}
