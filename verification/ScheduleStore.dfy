/** `_EphemeralScheduleStore`: schedule items over the asset store. */
module ScheduleStore {
  import opened Options
  import A = AssetStore

  datatype State = Scheduled | Cancelled | Published
  datatype Item = Item(asset: string, title: string, state: State)

  type Items = map<int, Item>

  /** Both stores together, with every operation on either. */
  datatype World = World(assets: A.Store, items: Items)

  datatype Op =
    | OnAssets(op: A.Op)
    | Create(id: int, asset: string)     // the id is a fresh UUID
    | Cancel(key: Option<int>)           // no key: not a UUID at all
    | MarkPublished(keys: seq<Option<int>>)

  function CancelOne(items: Items, key: Option<int>): Items
  {
    if key.None? || key.value !in items || items[key.value].state != Scheduled then items
    else items[key.value := items[key.value].(state := Cancelled)]
  }

  function PublishOne(items: Items, key: Option<int>): Items
  {
    if key.None? || key.value !in items || items[key.value].state != Scheduled then items
    else items[key.value := items[key.value].(state := Published)]
  }

  function PublishAll(items: Items, keys: seq<Option<int>>): Items
  {
    if keys == [] then items
    else PublishOne(PublishAll(items, keys[..|keys| - 1]), keys[|keys| - 1])
  }

  function Apply(w: World, op: Op): World
  {
    match op
    case OnAssets(a) => w.(assets := A.Apply(w.assets, a))
    case Create(id, asset) =>
      if asset !in w.assets.rows then w
      else w.(items := w.items[id := Item(asset, w.assets.rows[asset].title, Scheduled)])
    case Cancel(key) => w.(items := CancelOne(w.items, key))
    case MarkPublished(keys) => w.(items := PublishAll(w.items, keys))
  }

  function Run(w: World, ops: seq<Op>): World
    decreases |ops|
  {
    if ops == [] then w else Run(Apply(w, ops[0]), ops[1..])
  }

  function ScheduledIds(items: Items): set<int> { set id | id in items && items[id].state == Scheduled }

  // ---- The store as it is updated ----

  class EphemeralScheduleStore {
    const assets: A.EphemeralAssetStore
    var items: Items

    constructor (assets: A.EphemeralAssetStore)
      ensures this.assets == assets && items == map[]
    {
      this.assets, items := assets, map[];
    }

    method CreateItem(id: int, asset: string) returns (ok: bool)
      modifies this
      ensures ok == (asset in assets.rows)
      ensures World(assets.View(), items) == Apply(World(old(assets.View()), old(items)), Create(id, asset))
    {
      if asset !in assets.rows { return false; }
      items := items[id := Item(asset, assets.rows[asset].title, Scheduled)];
      return true;
    }

    method CancelItem(key: Option<int>) returns (found: bool)
      modifies this
      ensures items == CancelOne(old(items), key)
      ensures found == (key.Some? && key.value in old(items))
    {
      if key.None? || key.value !in items { return false; }
      if items[key.value].state == Scheduled {
        items := items[key.value := items[key.value].(state := Cancelled)];
      }
      return true;
    }

    /** Returns exactly how many fewer items are scheduled than before. */
    method Publish(keys: seq<Option<int>>) returns (transitioned: nat)
      modifies this
      ensures items == PublishAll(old(items), keys)
      ensures transitioned == |ScheduledIds(old(items))| - |ScheduledIds(items)|
    {
      transitioned := 0;
      for i := 0 to |keys|
        invariant items == PublishAll(old(items), keys[..i])
        invariant transitioned == |ScheduledIds(old(items))| - |ScheduledIds(items)|
      {
        assert keys[..i + 1][..i] == keys[..i];
        PublishOneCounts(items, keys[i]);
        if keys[i].Some? && keys[i].value in items && items[keys[i].value].state == Scheduled {
          items := items[keys[i].value := items[keys[i].value].(state := Published)];
          transitioned := transitioned + 1;
        }
      }
      assert keys[..|keys|] == keys;
    }
  }

  lemma PublishOneCounts(items: Items, key: Option<int>)
    ensures var hit := key.Some? && key.value in items && items[key.value].state == Scheduled;
            |ScheduledIds(PublishOne(items, key))| == |ScheduledIds(items)| - if hit then 1 else 0
  {
    if key.Some? && key.value in ScheduledIds(items) {
      assert ScheduledIds(PublishOne(items, key)) == ScheduledIds(items) - {key.value};
    }
  }

  // ---- What every run keeps ----

  /** The ids an operation gives out were never given out before. */
  ghost predicate FreshIds(w: World, ops: seq<Op>)
    decreases |ops|
  {
    ops != [] ==>
      && (ops[0].Create? ==> ops[0].id !in w.items)
      && FreshIds(Apply(w, ops[0]), ops[1..])
  }

  /** Each item keeps its asset and its title, and a settled item keeps its state. */
  ghost predicate Settled(before: Items, after: Items)
  {
    forall id :: id in before ==>
      && id in after && after[id].asset == before[id].asset && after[id].title == before[id].title
      && (before[id].state != Scheduled ==> after[id] == before[id])
  }

  lemma {:induction false} PublishAllSettled(items: Items, keys: seq<Option<int>>)
    ensures Settled(items, PublishAll(items, keys)) && PublishAll(items, keys).Keys == items.Keys
  {
    if keys != [] { PublishAllSettled(items, keys[..|keys| - 1]); }
  }

  /** Cancelled and published are final, over every run of both stores. */
  lemma {:induction false} SettledStaysSettled(w: World, ops: seq<Op>)
    requires FreshIds(w, ops)
    ensures Settled(w.items, Run(w, ops).items)
    decreases |ops|
  {
    if ops != [] {
      var v := Apply(w, ops[0]);
      if ops[0].MarkPublished? { PublishAllSettled(w.items, ops[0].keys); }
      assert Settled(w.items, v.items);
      SettledStaysSettled(v, ops[1..]);
      forall id | id in w.items ensures id in v.items {}
    }
  }

  ghost predicate AssetsExist(w: World)
  {
    forall id :: id in w.items ==> w.items[id].asset in w.assets.rows
  }

  /** Every item's asset exists, whatever else happens to the assets meanwhile. */
  lemma {:induction false} AssetsAlwaysExist(w: World, ops: seq<Op>)
    requires AssetsExist(w)
    ensures AssetsExist(Run(w, ops))
    decreases |ops|
  {
    if ops != [] {
      if ops[0].MarkPublished? { PublishAllSettled(w.items, ops[0].keys); }
      AssetsAlwaysExist(Apply(w, ops[0]), ops[1..]);
    }
  }

  /** Which items a call publishes: those scheduled before it and named in it; repeated, unknown
      and malformed keys add nothing, and order does not matter. */
  lemma {:induction false} PublishedExactly(items: Items, keys: seq<Option<int>>, id: int)
    requires id in items
    ensures id in PublishAll(items, keys)
    ensures PublishAll(items, keys)[id] ==
            if items[id].state == Scheduled && Some(id) in keys then items[id].(state := Published) else items[id]
  {
    if keys != [] {
      var n := |keys| - 1;
      PublishedExactly(items, keys[..n], id);
      assert Some(id) in keys <==> Some(id) in keys[..n] || Some(id) == keys[n] by {
        assert keys == keys[..n] + [keys[n]];
      }
    }
  }

  // ---- The life of an item ----

  /** What becomes of a scheduled item: the first operation that names it settles it. */
  ghost function Fate(ops: seq<Op>, id: int): State
  {
    if ops == [] then Scheduled
    else if ops[0] == Cancel(Some(id)) then Cancelled
    else if ops[0].MarkPublished? && Some(id) in ops[0].keys then Published
    else Fate(ops[1..], id)
  }

  /** Over every run of both stores, what an item is, from the operations alone. */
  lemma {:induction false} FateIsSealed(w: World, ops: seq<Op>, id: int)
    requires FreshIds(w, ops) && id in w.items
    ensures id in Run(w, ops).items
    ensures Run(w, ops).items[id] ==
            if w.items[id].state == Scheduled then w.items[id].(state := Fate(ops, id)) else w.items[id]
    decreases |ops|
  {
    if ops != [] {
      var v := Apply(w, ops[0]);
      if ops[0].MarkPublished? { PublishedExactly(w.items, ops[0].keys, id); }
      assert id in v.items;
      FateIsSealed(v, ops[1..], id);
    }
  }

  /** An item created on an existing asset is there ever after, under the title the asset then
      had; on a missing asset nothing is created. */
  lemma CreatedItem(w: World, id: int, asset: string, later: seq<Op>)
    requires FreshIds(w, [Create(id, asset)] + later)
    ensures var t := Run(w, [Create(id, asset)] + later);
            && (asset in w.assets.rows ==>
                  id in t.items && t.items[id] == Item(asset, w.assets.rows[asset].title, Fate(later, id)))
            && (asset !in w.assets.rows ==> t == Run(w, later))
  {
    var ops := [Create(id, asset)] + later;
    assert ops[1..] == later;
    if asset in w.assets.rows { FateIsSealed(Apply(w, ops[0]), later, id); }
  }
}
