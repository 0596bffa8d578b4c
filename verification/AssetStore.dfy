/** `_EphemeralAssetStore`: the public catalogue and the staff rows, kept side by side. */
module AssetStore {
  import opened Options

  /** The file behind a row and what probing it found. */
  datatype Media = Media(
    path: string, duration: Option<int>, codecVideo: Option<string>, codecAudio: Option<string>,
    width: Option<int>, height: Option<int>, bitrate: Option<int>, format: Option<string>)

  /** `details` holds the fields a metadata patch may name besides title and retention term. */
  datatype Row = Row(
    title: string, manifest: Option<string>, published: Option<int>, anchor: Option<int>,
    termUnit: Option<string>, termValue: Option<int>, details: map<string, string>, version: int,
    media: Option<Media>, contentHash: Option<string>, status: string)

  /** A public asset; of its fields only the publication time ever changes. */
  datatype Public = Public(title: string, manifest: string, published: Option<int>)

  datatype Store = Store(catalogue: map<string, Public>, rows: map<string, Row>)

  const EMPTY := Store(map[], map[])

  /** A metadata patch, with the version its author last saw.  Its model has no field for the
      id, the publication time or the retention anchor; a patch that leaves the row ill-formed
      is refused. */
  datatype Patch = Patch(
    expectedVersion: int, title: Option<string>, termUnit: Option<string>, termValue: Option<int>,
    details: map<string, string>, illFormed: bool)

  datatype Op =
    | Create(id: string, asset: Public)
    | Ingest(id: string, title: string, file: Media, hash: Option<string>)
    | MarkPackaged(id: string, manifest: string)
    | MarkPublished(id: string, at: int)
    | MarkUnpublished(id: string)
    | Relink(id: string, file: Media, hash: Option<string>)
    | UpdateMetadata(id: string, patch: Patch, now: int)

  /** Whether the store carries the operation out or raises. */
  predicate Accepts(s: Store, op: Op)
  {
    match op
    case Create(id, _) => id !in s.catalogue && id !in s.rows
    case Ingest(id, _, _, _) => id !in s.rows
    case MarkPublished(id, _) => id in s.rows && s.rows[id].manifest.Some? && s.rows[id].manifest.value != ""
    case UpdateMetadata(id, patch, _) => id in s.rows && !patch.illFormed
    case _ => op.id in s.rows
  }

  const BLANK := Row("", None, None, None, None, None, map[], 1, None, None, "ok")

  function NewRow(op: Op, r: Row): Row
  {
    match op
    case Create(_, a) => BLANK.(title := a.title, manifest := Some(a.manifest), published := a.published)
    case Ingest(_, title, file, hash) => BLANK.(title := title, media := Some(file), contentHash := hash)
    case MarkPackaged(_, manifest) => r.(manifest := Some(manifest))
    case MarkPublished(_, at) => r.(published := Some(at), anchor := if r.anchor.None? then Some(at) else r.anchor)
    case MarkUnpublished(_) => r.(published := None)
    case Relink(_, file, hash) =>
      r.(media := Some(file), contentHash := if hash.Some? then hash else r.contentHash,
         status := "relinked", version := r.version + 1)
    case UpdateMetadata(_, patch, now) =>
      var r1 := if patch.termUnit.None? then r
                else r.(anchor := if r.anchor.None? then Some(now) else r.anchor,
                        termUnit := patch.termUnit, termValue := patch.termValue);
      r1.(title := if patch.title.Some? then patch.title.value else r.title,
          details := r.details + patch.details, version := r.version + 1)
  }

  function Apply(s: Store, op: Op): Store
  {
    if !Accepts(s, op) then s
    else
      var row := NewRow(op, if op.id in s.rows then s.rows[op.id] else BLANK);
      var catalogue :=
        if op.Create? then s.catalogue[op.id := op.asset]
        else if (op.MarkPublished? || op.MarkUnpublished?) && op.id in s.catalogue then
          s.catalogue[op.id := s.catalogue[op.id].(published := row.published)]
        else s.catalogue;
      Store(catalogue, s.rows[op.id := row])
  }

  function Run(s: Store, ops: seq<Op>): Store
    decreases |ops|
  {
    if ops == [] then s else Run(Apply(s, ops[0]), ops[1..])
  }

  // ---- The store as it is updated ----

  class EphemeralAssetStore {
    var catalogue: map<string, Public>
    var rows: map<string, Row>

    function View(): Store
      reads this
    {
      Store(catalogue, rows)
    }

    constructor ()
      ensures View() == EMPTY
    {
      catalogue, rows := map[], map[];
    }

    method CreateAsset(id: string, asset: Public) returns (ok: bool)
      modifies this
      ensures ok == Accepts(old(View()), Create(id, asset)) && View() == Apply(old(View()), Create(id, asset))
    {
      if id in catalogue || id in rows { return false; }
      catalogue := catalogue[id := asset];
      rows := rows[id := BLANK.(title := asset.title, manifest := Some(asset.manifest), published := asset.published)];
      return true;
    }

    method IngestUpload(id: string, title: string, file: Media, hash: Option<string>) returns (ok: bool)
      modifies this
      ensures ok == Accepts(old(View()), Ingest(id, title, file, hash))
      ensures View() == Apply(old(View()), Ingest(id, title, file, hash))
    {
      if id in rows { return false; }
      rows := rows[id := BLANK.(title := title, media := Some(file), contentHash := hash)];
      return true;
    }

    method Package(id: string, manifest: string) returns (ok: bool)
      modifies this
      ensures ok == Accepts(old(View()), MarkPackaged(id, manifest))
      ensures View() == Apply(old(View()), MarkPackaged(id, manifest))
    {
      if id !in rows { return false; }
      rows := rows[id := rows[id].(manifest := Some(manifest))];
      return true;
    }

    method Publish(id: string, at: int) returns (ok: bool)
      modifies this
      ensures ok == Accepts(old(View()), MarkPublished(id, at)) && View() == Apply(old(View()), MarkPublished(id, at))
    {
      if id !in rows { return false; }
      var row := rows[id];
      if row.manifest.None? || row.manifest.value == "" { return false; }
      row := row.(published := Some(at));
      if row.anchor.None? { row := row.(anchor := Some(at)); }
      rows := rows[id := row];
      if id in catalogue { catalogue := catalogue[id := catalogue[id].(published := Some(at))]; }
      return true;
    }

    /** Each map is touched only where it still says published. */
    method Unpublish(id: string) returns (ok: bool)
      modifies this
      ensures ok == Accepts(old(View()), MarkUnpublished(id)) && View() == Apply(old(View()), MarkUnpublished(id))
    {
      if id !in rows { return false; }
      if rows[id].published.Some? { rows := rows[id := rows[id].(published := None)]; }
      if id in catalogue && catalogue[id].published.Some? {
        catalogue := catalogue[id := catalogue[id].(published := None)];
      }
      assert rows == old(rows)[id := old(rows)[id].(published := None)];
      if id in old(catalogue) { assert catalogue == old(catalogue)[id := old(catalogue)[id].(published := None)]; }
      return true;
    }

    method RelinkFile(id: string, file: Media, hash: Option<string>) returns (ok: bool)
      modifies this
      ensures ok == Accepts(old(View()), Relink(id, file, hash)) && View() == Apply(old(View()), Relink(id, file, hash))
    {
      if id !in rows { return false; }
      var row := rows[id];
      rows := rows[id := row.(media := Some(file), contentHash := if hash.Some? then hash else row.contentHash,
                              status := "relinked", version := row.version + 1)];
      return true;
    }

    /** The expected version is dropped, not compared. */
    method Update(id: string, patch: Patch, now: int) returns (ok: bool)
      modifies this
      ensures ok == Accepts(old(View()), UpdateMetadata(id, patch, now))
      ensures View() == Apply(old(View()), UpdateMetadata(id, patch, now))
    {
      if id !in rows || patch.illFormed { return false; }
      var row := rows[id];
      var next := row;
      if patch.termUnit.Some? {
        var anchor := if row.anchor.Some? then row.anchor.value else now;
        next := next.(anchor := Some(anchor), termUnit := patch.termUnit, termValue := patch.termValue);
      }
      if patch.title.Some? { next := next.(title := patch.title.value); }
      next := next.(details := next.details + patch.details);
      rows := rows[id := next.(version := row.version + 1)];
      return true;
    }
  }

  // ---- What every run keeps ----

  /** Every public asset has a staff row, and the two agree on when it was published. */
  ghost predicate Agrees(s: Store)
  {
    forall id :: id in s.catalogue ==> id in s.rows && s.catalogue[id].published == s.rows[id].published
  }

  lemma {:induction false} RunAgrees(s: Store, ops: seq<Op>)
    requires Agrees(s)
    ensures Agrees(Run(s, ops))
    decreases |ops|
  {
    if ops != [] { RunAgrees(Apply(s, ops[0]), ops[1..]); }
  }

  /** Rows are never removed, versions never fall, and an anchor, once set, stays. */
  ghost predicate Keeps(before: Store, after: Store)
  {
    forall id :: id in before.rows ==>
      && id in after.rows
      && before.rows[id].version <= after.rows[id].version
      && (before.rows[id].anchor.Some? ==> after.rows[id].anchor == before.rows[id].anchor)
  }

  lemma {:induction false} RunKeeps(s: Store, ops: seq<Op>)
    ensures Keeps(s, Run(s, ops))
    decreases |ops|
  {
    if ops != [] {
      var t := Apply(s, ops[0]);
      RunKeeps(t, ops[1..]);
      forall id | id in s.rows
        ensures s.rows[id].anchor.Some? ==> Run(s, ops).rows[id].anchor == s.rows[id].anchor
      {
        assert id in t.rows;
      }
    }
  }

  /** Operations on other assets leave an asset alone, in both maps. */
  lemma {:induction false} OthersUntouched(s: Store, ops: seq<Op>, id: string)
    requires forall i :: 0 <= i < |ops| ==> ops[i].id != id
    ensures var t := Run(s, ops);
            && (id in t.rows <==> id in s.rows) && (id in s.rows ==> t.rows[id] == s.rows[id])
            && (id in t.catalogue <==> id in s.catalogue) && (id in s.catalogue ==> t.catalogue[id] == s.catalogue[id])
    decreases |ops|
  {
    if ops != [] { OthersUntouched(Apply(s, ops[0]), ops[1..], id); }
  }

  /** The accepted operations on a row that count as edits of it. */
  ghost function Edits(s: Store, ops: seq<Op>, id: string): nat
    decreases |ops|
  {
    if ops == [] then 0
    else
      Edits(Apply(s, ops[0]), ops[1..], id)
      + if ops[0].id == id && Accepts(s, ops[0]) && (ops[0].Relink? || ops[0].UpdateMetadata?) then 1 else 0
  }

  /** A row's version grows by exactly the number of relinks and metadata updates. */
  lemma {:induction false} VersionCountsEdits(s: Store, ops: seq<Op>, id: string)
    ensures id in Run(s, ops).rows ==>
              Run(s, ops).rows[id].version == (if id in s.rows then s.rows[id].version else 1) + Edits(s, ops, id)
    ensures id in s.rows ==> id in Run(s, ops).rows
    decreases |ops|
  {
    if ops != [] { VersionCountsEdits(Apply(s, ops[0]), ops[1..], id); }
  }

  /** The first accepted operation that anchors a row: a publication, or a retention term. */
  ghost function FirstAnchor(s: Store, ops: seq<Op>, id: string): Option<int>
    decreases |ops|
  {
    if ops == [] then None
    else
      var op := ops[0];
      if op.id == id && Accepts(s, op) && op.MarkPublished? then Some(op.at)
      else if op.id == id && Accepts(s, op) && op.UpdateMetadata? && op.patch.termUnit.Some? then Some(op.now)
      else FirstAnchor(Apply(s, op), ops[1..], id)
  }

  /** From a store without the row, its anchor is set by the first such operation and by
      nothing else; so a row that was ever published through the store has one, and a row
      created as already published may not. */
  lemma {:induction false} AnchorIsFirst(s: Store, ops: seq<Op>, id: string)
    requires id !in s.rows || s.rows[id].anchor.None?
    ensures id in Run(s, ops).rows ==> Run(s, ops).rows[id].anchor == FirstAnchor(s, ops, id)
    decreases |ops|
  {
    if ops != [] {
      var op := ops[0];
      var t := Apply(s, op);
      if id in t.rows && t.rows[id].anchor.Some? {
        RunKeeps(t, ops[1..]);
      } else {
        AnchorIsFirst(t, ops[1..], id);
      }
    }
  }

  lemma PublishedWithoutAnchor(id: string, asset: Public)
    requires asset.published.Some?
    ensures var s := Run(EMPTY, [Create(id, asset)]);
            id in s.rows && s.rows[id].published.Some? && s.rows[id].anchor == None
  {
    assert [Create(id, asset)][1..] == [];
  }

  // ---- What a row holds after a run ----

  /** What the accepted operations on a row gave last, if they gave anything. */
  ghost function LastGiven<T>(s: Store, ops: seq<Op>, id: string, gives: Op -> Option<T>, start: T): T
    decreases |ops|
  {
    if ops == [] then start
    else
      var op := ops[0];
      LastGiven(Apply(s, op), ops[1..], id, gives,
                if op.id == id && Accepts(s, op) && gives(op).Some? then gives(op).value else start)
  }

  /** A row, or what one would start from. */
  ghost function RowOf(s: Store, id: string): Row { if id in s.rows then s.rows[id] else BLANK }

  /** A field that each operation sets to what it gives, or leaves, holds what was given last. */
  lemma {:induction false} FieldIsLast<T>(s: Store, ops: seq<Op>, id: string, field: Row -> T, gives: Op -> Option<T>)
    requires forall op, r :: field(NewRow(op, r)) == if gives(op).Some? then gives(op).value else field(r)
    ensures field(RowOf(Run(s, ops), id)) == LastGiven(s, ops, id, gives, field(RowOf(s, id)))
    decreases |ops|
  {
    hide NewRow, Accepts;
    if ops != [] { FieldIsLast(Apply(s, ops[0]), ops[1..], id, field, gives); }
  }

  ghost function GivesTitle(op: Op): Option<string>
  {
    match op
    case Create(_, a) => Some(a.title)
    case Ingest(_, title, _, _) => Some(title)
    case UpdateMetadata(_, patch, _) => patch.title
    case _ => None
  }

  ghost function GivesManifest(op: Op): Option<Option<string>>
  {
    match op
    case Create(_, a) => Some(Some(a.manifest))
    case Ingest(_, _, _, _) => Some(None)
    case MarkPackaged(_, manifest) => Some(Some(manifest))
    case _ => None
  }

  ghost function GivesPublished(op: Op): Option<Option<int>>
  {
    match op
    case Create(_, a) => Some(a.published)
    case Ingest(_, _, _, _) => Some(None)
    case MarkPublished(_, at) => Some(Some(at))
    case MarkUnpublished(_) => Some(None)
    case _ => None
  }

  ghost function GivesMedia(op: Op): Option<Option<Media>>
  {
    match op
    case Create(_, _) => Some(None)
    case Ingest(_, _, file, _) => Some(Some(file))
    case Relink(_, file, _) => Some(Some(file))
    case _ => None
  }

  ghost function GivesHash(op: Op): Option<Option<string>>
  {
    match op
    case Create(_, _) => Some(None)
    case Ingest(_, _, _, hash) => Some(hash)
    case Relink(_, _, hash) => if hash.Some? then Some(hash) else None
    case _ => None
  }

  ghost function GivesStatus(op: Op): Option<string>
  {
    match op
    case Create(_, _) => Some("ok")
    case Ingest(_, _, _, _) => Some("ok")
    case Relink(_, _, _) => Some("relinked")
    case _ => None
  }

  /** A retention term is its unit and its value together. */
  ghost function GivesTerm(op: Op): Option<(Option<string>, Option<int>)>
  {
    match op
    case Create(_, _) => Some((None, None))
    case Ingest(_, _, _, _) => Some((None, None))
    case UpdateMetadata(_, patch, _) => if patch.termUnit.Some? then Some((patch.termUnit, patch.termValue)) else None
    case _ => None
  }

  ghost function Lookup(m: map<string, string>, key: string): Option<string>
  {
    if key in m then Some(m[key]) else None
  }

  ghost function GivesDetail(key: string, op: Op): Option<Option<string>>
  {
    match op
    case Create(_, _) => Some(None)
    case Ingest(_, _, _, _) => Some(None)
    case UpdateMetadata(_, patch, _) => if key in patch.details then Some(Some(patch.details[key])) else None
    case _ => None
  }

  /** Over every run from any store, every field of a row but its version and its anchor, which
      are counted and fixed above, holds what an accepted operation on that row gave last. */
  lemma FieldsAreLast(s: Store, ops: seq<Op>, id: string, key: string)
    ensures var was, now := RowOf(s, id), RowOf(Run(s, ops), id);
            && now.title == LastGiven(s, ops, id, GivesTitle, was.title)
            && now.manifest == LastGiven(s, ops, id, GivesManifest, was.manifest)
            && now.published == LastGiven(s, ops, id, GivesPublished, was.published)
            && now.media == LastGiven(s, ops, id, GivesMedia, was.media)
            && now.contentHash == LastGiven(s, ops, id, GivesHash, was.contentHash)
            && now.status == LastGiven(s, ops, id, GivesStatus, was.status)
            && (now.termUnit, now.termValue) == LastGiven(s, ops, id, GivesTerm, (was.termUnit, was.termValue))
            && Lookup(now.details, key) ==
               LastGiven(s, ops, id, (op: Op) => GivesDetail(key, op), Lookup(was.details, key))
  {
    hide *;
    PublicFieldsAreLast(s, ops, id);
    FileFieldsAreLast(s, ops, id);
    PatchedFieldsAreLast(s, ops, id, key);
  }

  lemma PublicFieldsAreLast(s: Store, ops: seq<Op>, id: string)
    ensures var was, now := RowOf(s, id), RowOf(Run(s, ops), id);
            && now.title == LastGiven(s, ops, id, GivesTitle, was.title)
            && now.manifest == LastGiven(s, ops, id, GivesManifest, was.manifest)
            && now.published == LastGiven(s, ops, id, GivesPublished, was.published)
  {
    hide Run, LastGiven, RowOf;
    FieldIsLast(s, ops, id, (r: Row) => r.title, GivesTitle);
    FieldIsLast(s, ops, id, (r: Row) => r.manifest, GivesManifest);
    FieldIsLast(s, ops, id, (r: Row) => r.published, GivesPublished);
  }

  lemma FileFieldsAreLast(s: Store, ops: seq<Op>, id: string)
    ensures var was, now := RowOf(s, id), RowOf(Run(s, ops), id);
            && now.media == LastGiven(s, ops, id, GivesMedia, was.media)
            && now.contentHash == LastGiven(s, ops, id, GivesHash, was.contentHash)
            && now.status == LastGiven(s, ops, id, GivesStatus, was.status)
  {
    hide Run, LastGiven, RowOf;
    FieldIsLast(s, ops, id, (r: Row) => r.media, GivesMedia);
    FieldIsLast(s, ops, id, (r: Row) => r.contentHash, GivesHash);
    FieldIsLast(s, ops, id, (r: Row) => r.status, GivesStatus);
  }

  lemma PatchedFieldsAreLast(s: Store, ops: seq<Op>, id: string, key: string)
    ensures var was, now := RowOf(s, id), RowOf(Run(s, ops), id);
            && (now.termUnit, now.termValue) == LastGiven(s, ops, id, GivesTerm, (was.termUnit, was.termValue))
            && Lookup(now.details, key) ==
               LastGiven(s, ops, id, (op: Op) => GivesDetail(key, op), Lookup(was.details, key))
  {
    hide Run, LastGiven, RowOf;
    FieldIsLast(s, ops, id, (r: Row) => (r.termUnit, r.termValue), GivesTerm);
    FieldIsLast(s, ops, id, (r: Row) => Lookup(r.details, key), (op: Op) => GivesDetail(key, op));
  }

  ghost predicate Begins(op: Op, id: string) { op.id == id && (op.Create? || op.Ingest?) }

  /** From the empty store: a row exists exactly if it was ever created or uploaded, and a public
      asset if the first of these was a creation; no second one is accepted. */
  lemma {:induction false} RowsExactly(ops: seq<Op>, id: string)
    ensures var s := Run(EMPTY, ops);
            && (id in s.rows <==> exists i :: 0 <= i < |ops| && Begins(ops[i], id))
            && (id in s.catalogue <==>
                  exists i :: 0 <= i < |ops| && ops[i].Create? && FirstBeginning(ops, id, i))
            && (forall i :: FirstBeginning(ops, id, i) && ops[i].Create? ==>
                  id in s.catalogue && s.catalogue[id].title == ops[i].asset.title
                  && s.catalogue[id].manifest == ops[i].asset.manifest)
  {
    hide NewRow;
    if ops != [] {
      var n := |ops| - 1;
      var before, op := ops[..n], ops[n];
      RowsExactly(before, id);
      RunSnoc(EMPTY, before, op);
      assert ops == before + [op];
      assert forall i :: 0 <= i < n ==> before[i] == ops[i];
      assert forall i :: 0 <= i < n ==> (FirstBeginning(ops, id, i) <==> FirstBeginning(before, id, i));
      RunAgrees(EMPTY, before);
    }
  }

  ghost predicate FirstBeginning(ops: seq<Op>, id: string, i: int)
  {
    0 <= i < |ops| && Begins(ops[i], id) && forall j :: 0 <= j < i ==> !Begins(ops[j], id)
  }

  lemma {:induction false} RunSnoc(s: Store, ops: seq<Op>, op: Op)
    ensures Run(s, ops + [op]) == Apply(Run(s, ops), op)
    decreases |ops|
  {
    hide Apply;
    if ops == [] {
      assert [op][1..] == [] && ops + [op] == [op];
    } else {
      RunSnoc(Apply(s, ops[0]), ops[1..], op);
      assert (ops + [op])[1..] == ops[1..] + [op];
    }
  }

  /** A publication is accepted exactly if the manifest given last is not empty. */
  lemma PublishableExactly(s: Store, ops: seq<Op>, id: string, at: int)
    ensures Accepts(Run(s, ops), MarkPublished(id, at)) <==>
            var manifest := LastGiven(s, ops, id, GivesManifest, RowOf(s, id).manifest);
            manifest.Some? && manifest.value != ""
  {
    hide LastGiven, Run;
    PublicFieldsAreLast(s, ops, id);
  }

  /** From the empty store, which operation is accepted next: a creation or an upload of an id
      never begun; a publication as above; a well-formed patch, or anything else, of one begun. */
  lemma AcceptedExactly(ops: seq<Op>, op: Op)
    ensures var begun := exists i :: 0 <= i < |ops| && Begins(ops[i], op.id);
            var manifest := LastGiven(EMPTY, ops, op.id, GivesManifest, None);
            Accepts(Run(EMPTY, ops), op) <==>
            match op
            case Create(_, _) => !begun
            case Ingest(_, _, _, _) => !begun
            case MarkPublished(_, _) => manifest.Some? && manifest.value != ""
            case UpdateMetadata(_, patch, _) => begun && !patch.illFormed
            case _ => begun
  {
    hide Run, LastGiven;
    RowsExactly(ops, op.id);
    RunAgrees(EMPTY, ops);
    if op.MarkPublished? { PublishableExactly(EMPTY, ops, op.id, op.at); }
  }

  // ---- The version that is not compared ----

  /** The documented store: an update whose expected version is not the row's is refused. */
  function ApplyChecked(s: Store, op: Op): Store
  {
    if op.UpdateMetadata? && Accepts(s, op) && op.patch.expectedVersion != s.rows[op.id].version then s
    else Apply(s, op)
  }

  function RunChecked(s: Store, ops: seq<Op>): Store
    decreases |ops|
  {
    if ops == [] then s else RunChecked(ApplyChecked(s, ops[0]), ops[1..])
  }

  /** The operation is no update, or is refused anyway, or its author saw the row as it is. */
  ghost predicate Informed(s: Store, op: Op)
  {
    op.UpdateMetadata? && Accepts(s, op) ==> op.patch.expectedVersion == s.rows[op.id].version
  }

  ghost predicate AllInformed(s: Store, ops: seq<Op>)
    decreases |ops|
  {
    ops == [] || (Informed(s, ops[0]) && AllInformed(Apply(s, ops[0]), ops[1..]))
  }

  /** The unchecked store holds the same assets and is nowhere behind. */
  ghost predicate NotBehind(s: Store, c: Store)
  {
    && s.rows.Keys == c.rows.Keys && s.catalogue.Keys == c.catalogue.Keys
    && forall id :: id in s.rows ==> s.rows[id].version >= c.rows[id].version
  }

  ghost predicate IsEdit(s: Store, op: Op, id: string)
  {
    op.id == id && Accepts(s, op) && (op.Relink? || op.UpdateMetadata?)
  }

  /** Which keys and which versions one operation changes. */
  lemma StepKeys(s: Store, op: Op)
    ensures var t, ok := Apply(s, op), Accepts(s, op) && (op.Create? || op.Ingest?);
            && t.rows.Keys == (if ok then s.rows.Keys + {op.id} else s.rows.Keys)
            && t.catalogue.Keys == (if ok && op.Create? then s.catalogue.Keys + {op.id} else s.catalogue.Keys)
  {
  }

  lemma StepVersion(s: Store, op: Op, id: string)
    requires id in Apply(s, op).rows
    ensures Apply(s, op).rows[id].version ==
            if id !in s.rows then 1 else s.rows[id].version + if IsEdit(s, op, id) then 1 else 0
  {
  }

  /** Only publication looks at more than which assets there are. */
  lemma SameAcceptance(s: Store, c: Store, op: Op)
    requires s.rows.Keys == c.rows.Keys && s.catalogue.Keys == c.catalogue.Keys && !op.MarkPublished?
    ensures Accepts(s, op) <==> Accepts(c, op)
  {
  }

  lemma StepSameKeys(s: Store, c: Store, op: Op)
    requires NotBehind(s, c)
    ensures Apply(s, op).rows.Keys == ApplyChecked(c, op).rows.Keys
    ensures Apply(s, op).catalogue.Keys == ApplyChecked(c, op).catalogue.Keys
  {
    hide Apply, Accepts;
    StepKeys(s, op);
    StepKeys(c, op);
    if !op.MarkPublished? { SameAcceptance(s, c, op); }
  }

  lemma StepVersionsKept(s: Store, c: Store, op: Op, id: string)
    requires NotBehind(s, c) && id in Apply(s, op).rows && id in ApplyChecked(c, op).rows
    ensures Apply(s, op).rows[id].version >= ApplyChecked(c, op).rows[id].version
    ensures id in s.rows && s.rows[id].version > c.rows[id].version ==>
              Apply(s, op).rows[id].version > ApplyChecked(c, op).rows[id].version
  {
    hide Apply, Accepts;
    StepVersion(s, op, id);
    if ApplyChecked(c, op) == Apply(c, op) { StepVersion(c, op, id); }
    if !op.MarkPublished? { SameAcceptance(s, c, op); }
  }

  lemma StepNotBehind(s: Store, c: Store, op: Op)
    requires NotBehind(s, c)
    ensures NotBehind(Apply(s, op), ApplyChecked(c, op))
  {
    hide Apply, ApplyChecked;
    StepSameKeys(s, c, op);
    forall id | id in Apply(s, op).rows
      ensures Apply(s, op).rows[id].version >= ApplyChecked(c, op).rows[id].version
    {
      StepVersionsKept(s, c, op, id);
    }
  }

  lemma {:induction false} StaysAhead(s: Store, c: Store, ops: seq<Op>, id: string)
    requires NotBehind(s, c) && id in s.rows && s.rows[id].version > c.rows[id].version
    ensures id in Run(s, ops).rows && id in RunChecked(c, ops).rows
    ensures Run(s, ops).rows[id].version > RunChecked(c, ops).rows[id].version
    decreases |ops|
  {
    if ops != [] {
      StepNotBehind(s, c, ops[0]);
      StepKeys(s, ops[0]);
      StepVersionsKept(s, c, ops[0], id);
      StaysAhead(Apply(s, ops[0]), ApplyChecked(c, ops[0]), ops[1..], id);
    }
  }

  /** The store ends as the documented one would if and only if every update it accepted was
      informed: one stale update, and no later operation brings them together again. */
  lemma {:induction false} MatchesCheckedExactly(s: Store, ops: seq<Op>)
    ensures Run(s, ops) == RunChecked(s, ops) <==> AllInformed(s, ops)
    decreases |ops|
  {
    if ops != [] {
      var op := ops[0];
      if Informed(s, op) {
        MatchesCheckedExactly(Apply(s, op), ops[1..]);
      } else {
        StaysAhead(Apply(s, op), s, ops[1..], op.id);
      }
    }
  }

  /** The version an author should carry, counted from the operations that came before. */
  ghost function VersionBefore(s: Store, ops: seq<Op>, k: nat, id: string): int
    requires k <= |ops|
  {
    (if id in s.rows then s.rows[id].version else 1) + Edits(s, ops[..k], id)
  }

  /** Every accepted update was informed if and only if each carried the starting version, or
      one for a new row, plus the number of edits accepted before it. */
  lemma InformedExactly(s: Store, ops: seq<Op>)
    ensures AllInformed(s, ops) <==>
            forall k :: 0 <= k < |ops| && ops[k].UpdateMetadata? && Accepts(Run(s, ops[..k]), ops[k]) ==>
              ops[k].patch.expectedVersion == VersionBefore(s, ops, k, ops[k].id)
  {
    AllInformedPointwise(s, ops);
    forall k | 0 <= k < |ops|
      ensures ops[k].UpdateMetadata? && Accepts(Run(s, ops[..k]), ops[k]) ==>
                Run(s, ops[..k]).rows[ops[k].id].version == VersionBefore(s, ops, k, ops[k].id)
    {
      VersionCountsEdits(s, ops[..k], ops[k].id);
    }
  }

  lemma {:induction false} AllInformedPointwise(s: Store, ops: seq<Op>)
    ensures AllInformed(s, ops) <==> forall k :: 0 <= k < |ops| ==> Informed(Run(s, ops[..k]), ops[k])
    decreases |ops|
  {
    if ops != [] {
      var t, rest := Apply(s, ops[0]), ops[1..];
      AllInformedPointwise(t, rest);
      assert Run(s, ops[..0]) == s;
      forall k | 0 <= k < |rest|
        ensures Run(s, ops[..k + 1]) == Run(t, rest[..k]) && ops[k + 1] == rest[k]
      {
        assert ops[..k + 1][1..] == rest[..k];
      }
      if AllInformed(s, ops) {
        forall k | 0 <= k < |ops| ensures Informed(Run(s, ops[..k]), ops[k]) {
          if k > 0 { assert Informed(Run(t, rest[..k - 1]), rest[k - 1]); }
        }
      }
      if forall k :: 0 <= k < |ops| ==> Informed(Run(s, ops[..k]), ops[k]) {
        forall k | 0 <= k < |rest| ensures Informed(Run(t, rest[..k]), rest[k]) {
          assert Informed(Run(s, ops[..k + 1]), ops[k + 1]);
        }
      }
    }
  }

  /** A lost update: two authors who both saw version 1 are both accepted, and nothing is left
      of the first one's title; the documented store keeps it and refuses the second. */
  lemma LostUpdate(id: string, file: Media, one: string, other: string, now: int)
    requires one != other
    ensures var patch := Patch(1, Some(one), None, None, map[], false);
            var ops := [Ingest(id, "new", file, None), UpdateMetadata(id, patch, now),
                        UpdateMetadata(id, patch.(title := Some(other)), now)];
            var s, c := Run(EMPTY, ops), RunChecked(EMPTY, ops);
            && id in s.rows && s.rows[id].title == other && s.rows[id].version == 3
            && id in c.rows && c.rows[id].title == one && c.rows[id].version == 2
            && !AllInformed(EMPTY, ops)
  {
    var patch := Patch(1, Some(one), None, None, map[], false);
    var first, second, third := Ingest(id, "new", file, None), UpdateMetadata(id, patch, now),
                                UpdateMetadata(id, patch.(title := Some(other)), now);
    RunThree(EMPTY, first, second, third);
  }

  lemma RunThree(s: Store, a: Op, b: Op, c: Op)
    ensures Run(s, [a, b, c]) == Apply(Apply(Apply(s, a), b), c)
    ensures RunChecked(s, [a, b, c]) == ApplyChecked(ApplyChecked(ApplyChecked(s, a), b), c)
    ensures AllInformed(s, [a, b, c]) <==>
            Informed(s, a) && Informed(Apply(s, a), b) && Informed(Apply(Apply(s, a), b), c)
  {
    hide Apply, ApplyChecked, Informed;
    assert [a, b, c][1..] == [b, c] && [b, c][1..] == [c] && [c][1..] == [];
    AllInformedOne(Apply(Apply(s, a), b), c);
    assert AllInformed(Apply(s, a), [b, c]) <==> Informed(Apply(s, a), b) && AllInformed(Apply(Apply(s, a), b), [c]);
    assert Run(Apply(s, a), [b, c]) == Run(Apply(Apply(s, a), b), [c]) == Apply(Apply(Apply(s, a), b), c);
    var s1 := ApplyChecked(s, a);
    assert RunChecked(s1, [b, c]) == RunChecked(ApplyChecked(s1, b), [c]) == ApplyChecked(ApplyChecked(s1, b), c);
  }

  lemma AllInformedOne(s: Store, a: Op)
    ensures AllInformed(s, [a]) <==> Informed(s, a)
  {
    assert [a][1..] == [];
  }
}
