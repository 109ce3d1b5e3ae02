/**
 * `World`: a block grid and the entities that live in it. The entities are
 * kept twice, in a list in insertion order and in a map from entity ID to
 * entity, and the two must agree. Entity physics (`update` and the collision
 * resolution) is floating point and is not part of this model; of `update`
 * only the flag it raises while it runs, `isEntitiesUnmodifiable`, is kept.
 */
module World {
  import opened Java
  import Bytes
  import Serializer
  import BlockGrid

  /** The grid layer entities collide with, and the one behind it. */
  const LAYER_MAIN: int := 0
  const LAYER_BACKGROUND: int := 1

  /**
   * An entity as the world handles it: its ID, and the object `serialize`
   * frames for it. Entities are compared as values; the list holds no two with
   * the same ID whenever the world is consistent, so this agrees with the
   * source's comparison by reference there.
   */
  datatype Entity = Entity(id: int32, obj: Serializer.Transportable)

  // The list and the map.

  /** The IDs of the entities in `list`. */
  function Ids(list: seq<Entity>): set<int32>
  {
    set e | e in list :: e.id
  }

  /** No two entries of `list` share an ID. */
  predicate DistinctIds(list: seq<Entity>)
  {
    forall i, j | 0 <= i < j < |list| :: list[i].id != list[j].id
  }

  /**
   * The invariant of the two collections: distinct IDs in the list, and the
   * map holds exactly the listed IDs, each mapped to its entity.
   */
  predicate Consistent(list: seq<Entity>, ids: map<int32, Entity>)
  {
    DistinctIds(list) && ids.Keys == Ids(list) && forall e | e in list :: e.id in ids && ids[e.id] == e
  }

  /** The map `addEntity` builds when the entities of `list` are added in order. */
  function IdMap(list: seq<Entity>): map<int32, Entity>
  {
    if list == [] then map[] else IdMap(list[..|list| - 1])[list[|list| - 1].id := list[|list| - 1]]
  }

  /** The entities for which `p` holds, in list order. */
  function Selected(list: seq<Entity>, p: Entity -> bool): (r: seq<Entity>)
    ensures |r| <= |list| && forall k | 0 <= k < |r| :: r[k] in list && p(r[k])
  {
    if list == [] then []
    else Selected(list[..|list| - 1], p) + (if p(list[|list| - 1]) then [list[|list| - 1]] else [])
  }

  /** The entities for which `p` does not hold, in list order. */
  function Keep(list: seq<Entity>, p: Entity -> bool): (r: seq<Entity>)
  {
    if list == [] then []
    else Keep(list[..|list| - 1], p) + (if p(list[|list| - 1]) then [] else [list[|list| - 1]])
  }

  /** The index of the first occurrence of `x`, which `List.remove(Object)` removes. */
  function IndexOf(list: seq<Entity>, x: Entity): (r: nat)
    requires x in list
    ensures r < |list| && list[r] == x && x !in list[..r]
  {
    if list[0] == x then 0
    else
      assert list == [list[0]] + list[1..];
      assert list[1..][..IndexOf(list[1..], x)] == list[1..1 + IndexOf(list[1..], x)];
      1 + IndexOf(list[1..], x)
  }

  /** `list` without its entry at `i`. */
  function RemoveAt(list: seq<Entity>, i: nat): seq<Entity>
    requires i < |list|
  {
    list[..i] + list[i + 1..]
  }

  /**
   * The largest ID in `list`, or 0: the reader constructor's running maximum.
   * It bounds every ID and, unless it is 0, is one of them.
   */
  function MaxId(list: seq<Entity>): (r: int32)
    ensures r >= 0 && forall e | e in list :: e.id <= r
    ensures r == 0 || r in Ids(list)
  {
    if list == [] then 0
    else
      var m := MaxId(list[..|list| - 1]);
      assert list == list[..|list| - 1] + [list[|list| - 1]];
      if list[|list| - 1].id > m then list[|list| - 1].id else m
  }

  /** What `nextEntityID` hands out after `last`: `++lastEntityID` in int arithmetic. */
  function NextId(last: int32): int32
  {
    ToInt32(last + 1)
  }

  /** The serialized form of each entity, as `serialize` receives it. */
  function Objects(list: seq<Entity>): (r: seq<Option<Serializer.Transportable>>)
    ensures |r| == |list| && forall k | 0 <= k < |list| :: r[k] == Some(list[k].obj)
  {
    seq(|list|, k requires 0 <= k < |list| => Some(list[k].obj))
  }

  /** Every entity's payload leaves room for the six header bytes `serialize` puts in front. */
  predicate Sized(list: seq<Entity>)
  {
    forall e | e in list :: |e.obj.bytes| <= INT_MAX - 6
  }

  /** The reader's objects up to `n` are all there and none is null. */
  predicate AllPresent(objects: seq<Option<Entity>>, n: int)
  {
    n <= |objects| && forall k | 0 <= k < n :: objects[k].Some?
  }

  // Facts about the invariant.

  lemma IdsSnoc(list: seq<Entity>, e: Entity)
    ensures Ids(list + [e]) == Ids(list) + {e.id}
  {
    assert forall x | x in list + [e] :: x in list || x == e;
  }

  /** An entry can be added to a list with distinct IDs exactly when its ID is new. */
  lemma DistinctSnoc(list: seq<Entity>, e: Entity)
    ensures DistinctIds(list + [e]) <==> DistinctIds(list) && e.id !in Ids(list)
  {
    var s := list + [e];
    if DistinctIds(s) {
      forall i, j | 0 <= i < j < |list| ensures list[i].id != list[j].id {
        assert s[i] == list[i] && s[j] == list[j];
      }
    }
    if e.id in Ids(list) {
      var x :| x in list && x.id == e.id;
      var i :| 0 <= i < |list| && list[i] == x;
      assert s[i].id == s[|list|].id;
    }
    if DistinctIds(list) && e.id !in Ids(list) {
      forall i, j | 0 <= i < j < |s| ensures s[i].id != s[j].id {
        if j == |list| {
          assert s[i] in list;
          assert s[i].id in Ids(list);
        }
      }
    }
  }

  /**
   * `addEntity` keeps the list and the map consistent exactly when the new
   * entity's ID is not in use; otherwise the map forgets the older entity
   * while the list keeps both.
   */
  lemma AddConsistent(list: seq<Entity>, ids: map<int32, Entity>, e: Entity)
    requires Consistent(list, ids)
    ensures Consistent(list + [e], ids[e.id := e]) <==> e.id !in ids
  {
    DistinctSnoc(list, e);
    IdsSnoc(list, e);
    if e.id !in ids {
      forall x | x in list + [e] ensures x.id in ids[e.id := e] && ids[e.id := e][x.id] == x {
        if x != e {
          assert x in list;
        }
      }
    }
  }

  /** The map `addEntity` builds is consistent with the list exactly when the IDs are distinct. */
  lemma {:induction false} IdMapConsistent(list: seq<Entity>)
    ensures Consistent(list, IdMap(list)) <==> DistinctIds(list)
    decreases |list|
  {
    if list != [] {
      var init, last := list[..|list| - 1], list[|list| - 1];
      assert list == init + [last];
      DistinctSnoc(init, last);
      if DistinctIds(list) {
        IdMapConsistent(init);
        AddConsistent(init, IdMap(init), last);
      }
    }
  }

  /** Dropping one entry keeps the other entries, at shifted indices. */
  lemma RemoveAtEntries(list: seq<Entity>, i: nat)
    requires i < |list|
    ensures |RemoveAt(list, i)| == |list| - 1
    ensures forall k | 0 <= k < |list| - 1 :: RemoveAt(list, i)[k] == list[if k < i then k else k + 1]
  {
  }

  /**
   * `remove(id)` on a consistent world finds the entity in the list and leaves
   * the list and the map consistent, with that ID gone from both.
   */
  lemma RemoveConsistent(list: seq<Entity>, ids: map<int32, Entity>, id: int32)
    requires Consistent(list, ids) && id in ids
    ensures ids[id] in list && ids[id].id == id
    ensures Consistent(RemoveAt(list, IndexOf(list, ids[id])), ids - {id})
    ensures Ids(RemoveAt(list, IndexOf(list, ids[id]))) == Ids(list) - {id}
  {
    var x :| x in list && x.id == id;
    var i := IndexOf(list, x);
    var s := RemoveAt(list, i);
    RemoveDistinct(list, i);
    RemoveIds(list, i);
    forall y | y in s ensures y.id in ids - {id} && (ids - {id})[y.id] == y {
      assert y in list && y.id != id;
    }
  }

  /** Removing an entry keeps the IDs distinct. */
  lemma RemoveDistinct(list: seq<Entity>, i: nat)
    requires i < |list| && DistinctIds(list)
    ensures DistinctIds(RemoveAt(list, i))
  {
    var s := RemoveAt(list, i);
    RemoveAtEntries(list, i);
    forall a, b | 0 <= a < b < |s| ensures s[a].id != s[b].id {
      var a', b' := if a < i then a else a + 1, if b < i then b else b + 1;
      assert s[a] == list[a'] && s[b] == list[b'] && a' < b';
    }
  }

  /** With distinct IDs, removing entry `i` removes its ID and no other. */
  lemma RemoveIds(list: seq<Entity>, i: nat)
    requires i < |list| && DistinctIds(list)
    ensures forall y | y in RemoveAt(list, i) :: y in list && y.id != list[i].id
    ensures Ids(RemoveAt(list, i)) == Ids(list) - {list[i].id}
  {
    var s := RemoveAt(list, i);
    RemoveAtEntries(list, i);
    forall y | y in s ensures y in list && y.id != list[i].id {
      var k :| 0 <= k < |s| && s[k] == y;
      var k' := if k < i then k else k + 1;
      assert y == list[k'] && k' != i;
    }
    forall j | j in Ids(list) - {list[i].id} ensures j in Ids(s) {
      var y :| y in list && y.id == j;
      var k :| 0 <= k < |list| && list[k] == y;
      assert k != i;
      assert y == s[if k < i then k else k - 1];
    }
  }

  /** `removeIf` removes exactly the matching entities and keeps the others in order. */
  lemma {:induction false} KeepSelected(list: seq<Entity>, p: Entity -> bool)
    ensures forall x :: x in Keep(list, p) <==> x in list && !p(x)
    ensures forall x :: x in Selected(list, p) <==> x in list && p(x)
    ensures multiset(Keep(list, p)) + multiset(Selected(list, p)) == multiset(list)
    decreases |list|
  {
    if list != [] {
      var init, last := list[..|list| - 1], list[|list| - 1];
      assert list == init + [last];
      KeepSelected(init, p);
    }
  }

  /** Of a list with distinct IDs, the kept entries have distinct IDs: those not selected. */
  lemma {:induction false} KeepIds(list: seq<Entity>, p: Entity -> bool)
    requires DistinctIds(list)
    ensures DistinctIds(Keep(list, p))
    ensures Ids(Keep(list, p)) == Ids(list) - Ids(Selected(list, p))
    decreases |list|
  {
    if list != [] {
      var init, last := list[..|list| - 1], list[|list| - 1];
      assert list == init + [last];
      DistinctSnoc(init, last);
      KeepIds(init, p);
      KeepSelected(init, p);
      IdsSnoc(init, last);
      assert Ids(Keep(init, p)) <= Ids(init);
      assert Ids(Selected(init, p)) <= Ids(init);
      if p(last) {
        IdsSnoc(Selected(init, p), last);
      } else {
        DistinctSnoc(Keep(init, p), last);
        IdsSnoc(Keep(init, p), last);
      }
    }
  }

  /** `removeIf` keeps the list and the map consistent. */
  lemma RemoveIfConsistent(list: seq<Entity>, ids: map<int32, Entity>, p: Entity -> bool)
    requires Consistent(list, ids)
    ensures Consistent(Keep(list, p), ids - Ids(Selected(list, p)))
  {
    KeepIds(list, p);
    KeepSelected(list, p);
    forall x | x in Keep(list, p)
      ensures x.id in ids - Ids(Selected(list, p)) && (ids - Ids(Selected(list, p)))[x.id] == x
    {
      assert x.id in Ids(Keep(list, p));
    }
  }

  /**
   * After the reader constructor the counter is at least every ID, so while it
   * is below `Integer.MAX_VALUE` the next ID is larger than all of them.
   */
  lemma NextIdIsNew(list: seq<Entity>, last: int32)
    requires MaxId(list) <= last < INT_MAX
    ensures NextId(last) == last + 1
    ensures forall e | e in list :: e.id < NextId(last)
    ensures NextId(last) !in Ids(list)
  {
    WrapId(last + 1, 0x1_0000_0000);
  }

  /** At `Integer.MAX_VALUE` the counter wraps to the smallest int. */
  lemma NextIdWraps()
    ensures NextId(INT_MAX) == -0x8000_0000
  {
  }

  /** Writing `a`, then `b` after it, over zero bytes, then the rest after both. */
  lemma Layout(a: seq<byte>, b: seq<byte>, c: seq<byte>)
    ensures Splice2(a, b, |c|) == a + b + Zeros(|c|)
  {
    var z := Zeros(|a| + |b| + |c|);
    var t := Bytes.Splice(z, 0, a);
    assert t == a + Zeros(|b| + |c|);
    assert Bytes.Splice(t, |a|, b) == a + b + Zeros(|c|);
  }

  /** Zero bytes with `a` written at 0 and `b` right after it. */
  function Splice2(a: seq<byte>, b: seq<byte>, n: nat): seq<byte>
  {
    Bytes.Splice(Bytes.Splice(Zeros(|a| + |b| + n), 0, a), |a|, b)
  }

  lemma Appended(a: seq<byte>, c: seq<byte>)
    ensures Bytes.Splice(a + Zeros(|c|), |a|, c) == a + c
  {
  }

  /**
   * What `getBytesFiltered` writes reads back: the count after the grid's
   * bytes, then the accepted entities' objects, in list order, up to the end.
   */
  lemma FilteredReadBack(writeLookup: map<Serializer.ClassName, short>, readLookup: map<short, Serializer.Builder>,
      blocksBytes: seq<byte>, list: seq<Entity>, filter: Entity -> bool)
    requires |Selected(list, filter)| <= INT_MAX && Sized(list)
    requires forall e | e in list && filter(e) :: Serializer.Readable(writeLookup, readLookup, Some(e.obj))
    ensures FilteredChunks(writeLookup, list, filter).Ok?
    ensures Bytes.GetInteger(FilteredLayout(blocksBytes, |Selected(list, filter)|,
      FilteredChunks(writeLookup, list, filter).value), |blocksBytes|) == |Selected(list, filter)|
    ensures Serializer.ReadObjects(readLookup, FilteredLayout(blocksBytes, |Selected(list, filter)|,
        FilteredChunks(writeLookup, list, filter).value), |blocksBytes| + 4, |Selected(list, filter)|)
      == Ok((Objects(Selected(list, filter)), |FilteredLayout(blocksBytes, |Selected(list, filter)|,
        FilteredChunks(writeLookup, list, filter).value)|))
  {
    var sel := Selected(list, filter);
    var objs := Objects(sel);
    SelectedReadable(writeLookup, readLookup, list, filter);
    Serializer.AllEncoded(writeLookup, readLookup, objs);
    Serializer.EncodeAllEach(writeLookup, objs);
    var chunks := FilteredChunks(writeLookup, list, filter).value;
    LayoutReadBack(writeLookup, readLookup, blocksBytes, objs, chunks, FilteredLayout(blocksBytes, |sel|, chunks));
  }

  lemma SelectedReadable(writeLookup: map<Serializer.ClassName, short>, readLookup: map<short, Serializer.Builder>,
      list: seq<Entity>, filter: Entity -> bool)
    requires forall e | e in list && filter(e) :: Serializer.Readable(writeLookup, readLookup, Some(e.obj))
    ensures forall k | 0 <= k < |Selected(list, filter)| ::
      Serializer.Readable(writeLookup, readLookup, Objects(Selected(list, filter))[k])
  {
    var sel := Selected(list, filter);
    forall k | 0 <= k < |sel| ensures Serializer.Readable(writeLookup, readLookup, Objects(sel)[k]) {
      assert sel[k] in list && filter(sel[k]);
    }
  }

  /** Readable objects written after a count are read back after it. */
  lemma LayoutReadBack(writeLookup: map<Serializer.ClassName, short>, readLookup: map<short, Serializer.Builder>,
      blocksBytes: seq<byte>, objs: seq<Option<Serializer.Transportable>>, chunks: seq<seq<byte>>, bytes: seq<byte>)
    requires |objs| <= INT_MAX
    requires forall k | 0 <= k < |objs| :: objs[k].Some? ==> |objs[k].value.bytes| <= INT_MAX
    requires forall k | 0 <= k < |objs| :: Serializer.Readable(writeLookup, readLookup, objs[k])
    requires Serializer.EncodeAll(writeLookup, objs) == Ok(chunks)
    requires bytes == FilteredLayout(blocksBytes, |objs|, chunks)
    ensures Bytes.GetInteger(bytes, |blocksBytes|) == |objs|
    ensures Serializer.ReadObjects(readLookup, bytes, |blocksBytes| + 4, |objs|) == Ok((objs, |bytes|))
  {
    CountAt(blocksBytes, |objs|, Bytes.Flatten(chunks));
    ReadAfterHead(writeLookup, readLookup, blocksBytes, Bytes.IntBytes(|objs|), objs, chunks, bytes);
  }

  lemma ReadAfterHead(writeLookup: map<Serializer.ClassName, short>, readLookup: map<short, Serializer.Builder>,
      head: seq<byte>, count: seq<byte>, objs: seq<Option<Serializer.Transportable>>, chunks: seq<seq<byte>>,
      bytes: seq<byte>)
    requires forall k | 0 <= k < |objs| :: objs[k].Some? ==> |objs[k].value.bytes| <= INT_MAX
    requires forall k | 0 <= k < |objs| :: Serializer.Readable(writeLookup, readLookup, objs[k])
    requires Serializer.EncodeAll(writeLookup, objs) == Ok(chunks)
    requires |count| == 4 && bytes == head + count + Bytes.Flatten(chunks)
    ensures Serializer.ReadObjects(readLookup, bytes, |head| + 4, |objs|) == Ok((objs, |bytes|))
  {
    Serializer.EncodedEach(writeLookup, readLookup, objs);
    ChunksAfterHead(readLookup, head, count, objs, chunks, bytes);
  }

  /** Chunks that read back as the objects, found after the head and the count. */
  lemma ChunksAfterHead(readLookup: map<short, Serializer.Builder>, head: seq<byte>, count: seq<byte>,
      objs: seq<Option<Serializer.Transportable>>, chunks: seq<seq<byte>>, bytes: seq<byte>)
    requires Serializer.ReadsChunks(Serializer.Reader(readLookup), objs, chunks)
    requires |count| == 4 && bytes == head + count + Bytes.Flatten(chunks)
    ensures Serializer.ReadObjects(readLookup, bytes, |head| + 4, |objs|) == Ok((objs, |bytes|))
  {
    var prefix, flat := head + count, Bytes.Flatten(chunks);
    assert prefix + flat + [] == bytes;
    assert |prefix| == |head| + 4 && |bytes| == |prefix| + |flat|;
    Serializer.ReadChunksBack(readLookup, objs, chunks, prefix, []);
  }

  lemma CountAt(head: seq<byte>, count: int32, body: seq<byte>)
    ensures Bytes.GetInteger(head + Bytes.IntBytes(count) + body, |head|) == count
  {
    var s := head + Bytes.IntBytes(count) + body;
    assert Bytes.Splice(s, |head|, Bytes.IntBytes(count)) == s;
    Bytes.IntegerRoundTrip(s, |head|, count);
  }

  /** The world: its grid, the entity list and map, the ID counter and the removal hook. */
  class World {
    const blocks: BlockGrid.BlockGrid
    var entities: seq<Entity>
    var entitiesID: map<int32, Entity>
    var lastEntityID: int32
    /** Whether an `onRemove` action is set. */
    var hasOnRemove: bool
    /** The entities handed to `onRemove`, in order. */
    var removed: seq<Entity>
    var isEntitiesUnmodifiable: bool

    /** `new World(width, height)`: no entities, and an empty grid of two layers. */
    constructor(width: int32, height: int32)
      requires 0 <= width && 0 <= height && 2 * width * height <= INT_MAX
      ensures entities == [] && entitiesID == map[] && lastEntityID == 0
      ensures !hasOnRemove && removed == [] && !isEntitiesUnmodifiable
      ensures fresh(blocks) && fresh(blocks.blocks) && blocks.Valid()
      ensures blocks.layers == 2 && blocks.width == width && blocks.height == height
    {
      blocks := new BlockGrid.BlockGrid(2, width, height);
      entities := [];
      entitiesID := map[];
      lastEntityID := 0;
      hasOnRemove := false;
      removed := [];
      isEntitiesUnmodifiable := false;
    }

    /** The field assignments that end the reader constructor. */
    constructor Loaded(blocks: BlockGrid.BlockGrid, entities: seq<Entity>, entitiesID: map<int32, Entity>,
        lastEntityID: int32)
      ensures this.blocks == blocks && this.entities == entities && this.entitiesID == entitiesID
      ensures this.lastEntityID == lastEntityID
      ensures !hasOnRemove && removed == [] && !isEntitiesUnmodifiable
    {
      this.blocks := blocks;
      this.entities := entities;
      this.entitiesID := entitiesID;
      this.lastEntityID := lastEntityID;
      hasOnRemove := false;
      removed := [];
      isEntitiesUnmodifiable := false;
    }

    /**
     * The reader constructor: the grid, which must not be null, then the
     * entity count, then that many entities, none null, each added in turn;
     * the counter becomes the largest ID read, or 0. `objects` are the
     * objects the reader yields in order; running out of them is the
     * reader's `IndexOutOfBoundsException`, which `readObject` turns into a
     * `SerializationException`. A negative count is refused by
     * `new ArrayList<>(count)`.
     */
    static method Read(grid: Option<BlockGrid.BlockGrid>, count: int32, objects: seq<Option<Entity>>)
      returns (r: Result<World>)
      ensures grid.None? ==> r == Err(NullPointer)
      ensures grid.Some? && count < 0 ==> r == Err(IllegalArgument)
      ensures grid.Some? && count >= 0 ==> (r.Ok? <==> AllPresent(objects, count))
      ensures grid.Some? && count >= 0 && r.Err? ==>
        r.error == if AllPresent(objects, Bytes.Min(count, |objects|)) then Serialization else NullPointer
      ensures r.Ok? ==> (fresh(r.value) && r.value.blocks == grid.value
        && |r.value.entities| == count as int
        && (forall k | 0 <= k < count as int :: r.value.entities[k] == objects[k].value)
        && r.value.entitiesID == IdMap(r.value.entities)
        && r.value.lastEntityID == MaxId(r.value.entities)
        && !r.value.hasOnRemove && r.value.removed == [] && !r.value.isEntitiesUnmodifiable)
    {
      if grid.None? {
        return Err(NullPointer);
      }
      if count < 0 {
        return Err(IllegalArgument);
      }
      var list: seq<Entity> := [];
      var ids: map<int32, Entity> := map[];
      var maxEntityID: int32 := 0;
      for i := 0 to count
        invariant AllPresent(objects, i) && |list| == i
        invariant forall k | 0 <= k < i :: list[k] == objects[k].value
        invariant ids == IdMap(list) && maxEntityID == MaxId(list)
      {
        if i >= |objects| {
          return Err(Serialization);
        }
        if objects[i].None? {
          return Err(NullPointer);
        }
        var e := objects[i].value;
        if e.id > maxEntityID {
          maxEntityID := e.id;
        }
        assert (list + [e])[..i] == list;
        list := list + [e];
        ids := ids[e.id := e];
      }
      var w := new World.Loaded(grid.value, list, ids, maxEntityID);
      return Ok(w);
    }

    /** `nextEntityID`: the counter, incremented first. */
    method NextEntityID() returns (r: int32)
      modifies this
      ensures r == lastEntityID == NextId(old(lastEntityID))
      ensures old(lastEntityID) < INT_MAX ==> r == old(lastEntityID) + 1
      ensures entities == old(entities) && entitiesID == old(entitiesID)
      ensures hasOnRemove == old(hasOnRemove) && removed == old(removed)
      ensures isEntitiesUnmodifiable == old(isEntitiesUnmodifiable)
    {
      if lastEntityID < INT_MAX {
        WrapId(lastEntityID + 1, 0x1_0000_0000);
      }
      lastEntityID := NextId(lastEntityID);
      return lastEntityID;
    }

    /** `setRemoveEntities`: from now on removed entities are handed to the removal action. */
    method SetRemoveEntities()
      modifies this
      ensures hasOnRemove && removed == old(removed)
      ensures entities == old(entities) && entitiesID == old(entitiesID) && lastEntityID == old(lastEntityID)
      ensures isEntitiesUnmodifiable == old(isEntitiesUnmodifiable)
    {
      hasOnRemove := true;
    }

    /** `getEntityFromIdOrNull`: the map's entry; in a consistent world, the listed entity with that ID. */
    function GetEntityFromIdOrNull(id: int32): (r: Option<Entity>)
      reads this
      ensures r.Some? <==> id in entitiesID
      ensures Consistent(entities, entitiesID) ==>
        (r.Some? <==> id in Ids(entities)) && (r.Some? ==> r.value in entities && r.value.id == id)
    {
      if id in entitiesID then Some(entitiesID[id]) else None
    }

    /** `getEntityFromID`: the same, with a missing entity a `NullPointerException`. */
    function GetEntityFromID(id: int32): (r: Result<Entity>)
      reads this
      ensures r.Err? <==> id !in entitiesID
      ensures r.Err? ==> r.error == NullPointer
      ensures Consistent(entities, entitiesID) && r.Ok? ==> r.value in entities && r.value.id == id
    {
      match GetEntityFromIdOrNull(id)
      case None => Err(NullPointer)
      case Some(e) => Ok(e)
    }

    /**
     * `add`: refused while entities are being updated, and a null entity is a
     * `NullPointerException`; otherwise appended to the list and put in the map.
     */
    method Add(e: Option<Entity>) returns (r: Result<()>)
      modifies this
      ensures isEntitiesUnmodifiable ==> r == Err(IllegalState)
      ensures !isEntitiesUnmodifiable && e.None? ==> r == Err(NullPointer)
      ensures r.Err? ==> entities == old(entities) && entitiesID == old(entitiesID)
      ensures !isEntitiesUnmodifiable && e.Some? ==> (r == Ok(())
        && entities == old(entities) + [e.value] && entitiesID == old(entitiesID)[e.value.id := e.value])
      ensures lastEntityID == old(lastEntityID) && hasOnRemove == old(hasOnRemove) && removed == old(removed)
      ensures isEntitiesUnmodifiable == old(isEntitiesUnmodifiable)
    {
      if isEntitiesUnmodifiable {
        return Err(IllegalState);
      }
      if e.None? {
        return Err(NullPointer);
      }
      entities := entities + [e.value];
      entitiesID := entitiesID[e.value.id := e.value];
      return Ok(());
    }

    /**
     * `remove(entityID)`: the ID leaves the map first; the entity it mapped to
     * then leaves the list, first occurrence only. An unknown ID removes
     * `null` from the list, which fails, so it is an `IllegalStateException`
     * and not the `null` the source's comment promises.
     */
    method RemoveById(entityID: int32) returns (r: Result<Entity>)
      modifies this
      ensures entitiesID == old(entitiesID) - {entityID}
      ensures entityID !in old(entitiesID) ==> r == Err(IllegalState) && entities == old(entities)
      ensures entityID in old(entitiesID) && old(entitiesID)[entityID] !in old(entities)
        ==> r == Err(IllegalState) && entities == old(entities)
      ensures entityID in old(entitiesID) && old(entitiesID)[entityID] in old(entities)
        ==> (r == Ok(old(entitiesID)[entityID])
          && entities == RemoveAt(old(entities), IndexOf(old(entities), old(entitiesID)[entityID])))
      ensures lastEntityID == old(lastEntityID) && hasOnRemove == old(hasOnRemove) && removed == old(removed)
      ensures isEntitiesUnmodifiable == old(isEntitiesUnmodifiable)
    {
      var e := if entityID in entitiesID then Some(entitiesID[entityID]) else None;
      entitiesID := entitiesID - {entityID};
      if e.None? || e.value !in entities {
        return Err(IllegalState);
      }
      entities := RemoveAt(entities, IndexOf(entities, e.value));
      return Ok(e.value);
    }

    /** `remove(entity)`: refused while entities are being updated, else `remove(entity.getID())`. */
    method Remove(e: Entity) returns (r: Result<()>)
      modifies this
      ensures old(isEntitiesUnmodifiable) ==> (r == Err(IllegalState)
        && entities == old(entities) && entitiesID == old(entitiesID))
      ensures !old(isEntitiesUnmodifiable) ==> entitiesID == old(entitiesID) - {e.id}
      ensures !old(isEntitiesUnmodifiable) && e.id in old(entitiesID) && old(entitiesID)[e.id] in old(entities)
        ==> r == Ok(()) && entities == RemoveAt(old(entities), IndexOf(old(entities), old(entitiesID)[e.id]))
      ensures !old(isEntitiesUnmodifiable) && !(e.id in old(entitiesID) && old(entitiesID)[e.id] in old(entities))
        ==> r == Err(IllegalState) && entities == old(entities)
      ensures lastEntityID == old(lastEntityID) && hasOnRemove == old(hasOnRemove) && removed == old(removed)
      ensures isEntitiesUnmodifiable == old(isEntitiesUnmodifiable)
    {
      if isEntitiesUnmodifiable {
        return Err(IllegalState);
      }
      var removedEntity := RemoveById(e.id);
      if removedEntity.Err? {
        return Err(removedEntity.error);
      }
      return Ok(());
    }

    /**
     * `removeIf`: walks the list once; each entity the predicate accepts
     * leaves the list and the map, and is handed to `onRemove` when that is set.
     */
    method RemoveIf(matches: Entity -> bool)
      modifies this
      ensures entities == Keep(old(entities), matches)
      ensures entitiesID == old(entitiesID) - Ids(Selected(old(entities), matches))
      ensures removed == old(removed) + if hasOnRemove then Selected(old(entities), matches) else []
      ensures lastEntityID == old(lastEntityID) && hasOnRemove == old(hasOnRemove)
      ensures isEntitiesUnmodifiable == old(isEntitiesUnmodifiable)
    {
      var list := entities;
      var kept: seq<Entity> := [];
      for i := 0 to |list|
        invariant Walked(list, matches, i, kept, old(entitiesID), old(removed))
        invariant lastEntityID == old(lastEntityID) && hasOnRemove == old(hasOnRemove)
        invariant isEntitiesUnmodifiable == old(isEntitiesUnmodifiable)
      {
        kept := RemoveNext(list, matches, i, kept, old(entitiesID), old(removed));
      }
      assert list[..|list|] == list;
      entities := kept;
    }

    /** `removeIf` has walked `list` up to `i`: `kept` are the entries it kept so far. */
    ghost predicate Walked(list: seq<Entity>, matches: Entity -> bool, i: nat, kept: seq<Entity>,
        ids: map<int32, Entity>, log: seq<Entity>)
      reads this
    {
      i <= |list| && kept == Keep(list[..i], matches) && entities == kept + list[i..]
      && entitiesID == ids - Ids(Selected(list[..i], matches))
      && removed == log + if hasOnRemove then Selected(list[..i], matches) else []
    }

    /** One pass of `removeIf`'s loop: entry `i` removed if it matches, kept otherwise. */
    method RemoveNext(list: seq<Entity>, matches: Entity -> bool, i: nat, kept: seq<Entity>,
        ghost ids: map<int32, Entity>, ghost log: seq<Entity>) returns (kept': seq<Entity>)
      requires i < |list| && Walked(list, matches, i, kept, ids, log)
      modifies this
      ensures Walked(list, matches, i + 1, kept', ids, log)
      ensures lastEntityID == old(lastEntityID) && hasOnRemove == old(hasOnRemove)
      ensures isEntitiesUnmodifiable == old(isEntitiesUnmodifiable)
    {
      var next := list[i];
      FilterStep(list, matches, i);
      kept' := kept;
      if matches(next) {
        entities := kept + list[i + 1..];
        MapMinus(ids, Ids(Selected(list[..i], matches)), next.id);
        entitiesID := entitiesID - {next.id};
        if hasOnRemove {
          removed := removed + [next];
        }
      } else {
        kept' := kept + [next];
      }
    }

    /**
     * `getBytesFiltered`: the grid's serialized bytes, then the number of
     * entities the filter accepts, then each of them serialized, in list
     * order. `blocksBytes` is what `serialize` gave for the grid. The first
     * entity that cannot be serialized ends it with that exception.
     */
    method GetBytesFiltered(blocksBytes: seq<byte>, filter: Entity -> bool, ser: Serializer.SerializerReaderWriter)
      returns (r: Result<seq<byte>>)
      requires Sized(entities) && |entities| <= INT_MAX
      requires FilteredChunks(ser.serializeLookup, entities, filter).Ok? ==>
        |blocksBytes| + 4 + Bytes.TotalLength(FilteredChunks(ser.serializeLookup, entities, filter).value) <= INT_MAX
      ensures FilteredChunks(ser.serializeLookup, entities, filter).Err? ==>
        r == Err(FilteredChunks(ser.serializeLookup, entities, filter).error)
      ensures FilteredChunks(ser.serializeLookup, entities, filter).Ok? ==>
        r == Ok(FilteredLayout(blocksBytes, |Selected(entities, filter)|,
          FilteredChunks(ser.serializeLookup, entities, filter).value))
    {
      var elist := SerializeFiltered(entities, filter, ser);
      if elist.Err? {
        return Err(elist.error);
      }
      var bytes := WriteFiltered(blocksBytes, elist.value);
      return Ok(bytes);
    }
  }

  /** What the filter-and-serialize stream yields: each accepted entity serialized, or the first failure. */
  function FilteredChunks(lookup: map<Serializer.ClassName, short>, list: seq<Entity>, filter: Entity -> bool)
    : (r: Result<seq<seq<byte>>>)
    requires Sized(list)
    ensures r.Ok? ==> |r.value| == |Selected(list, filter)|
  {
    Serializer.EncodeAll(lookup, Objects(Selected(list, filter)))
  }

  /** The layout `getBytesFiltered` writes. */
  function FilteredLayout(blocksBytes: seq<byte>, count: int32, chunks: seq<seq<byte>>): seq<byte>
  {
    blocksBytes + Bytes.IntBytes(count) + Bytes.Flatten(chunks)
  }

  /** The stream of `getBytesFiltered`: filter, then `serialize` each accepted entity, in list order. */
  method SerializeFiltered(list: seq<Entity>, filter: Entity -> bool, ser: Serializer.SerializerReaderWriter)
    returns (r: Result<seq<seq<byte>>>)
    requires Sized(list)
    ensures r == FilteredChunks(ser.serializeLookup, list, filter)
  {
    var lookup := ser.serializeLookup;
    var elist: seq<seq<byte>> := [];
    for i := 0 to |list|
      invariant FilteredChunks(lookup, list[..i], filter) == Ok(elist)
    {
      var e := list[i];
      if filter(e) {
        var data := ser.Serialize(Some(e.obj));
        assert data == Serializer.Encoded(lookup, Some(e.obj));
        SerializeNext(lookup, list, filter, i);
        if data.Err? {
          FilteredFails(lookup, list, filter, i + 1);
          return Err(data.error);
        }
        elist := elist + [data.value];
      } else {
        SkipNext(lookup, list, filter, i);
      }
    }
    assert list[..|list|] == list;
    return Ok(elist);
  }

  /** The writing half of `getBytesFiltered`: a fresh array filled by `copy` and `putInteger`. */
  method WriteFiltered(blocksBytes: seq<byte>, elist: seq<seq<byte>>) returns (r: seq<byte>)
    requires |elist| <= INT_MAX && |blocksBytes| + 4 + Bytes.TotalLength(elist) <= INT_MAX
    ensures r == FilteredLayout(blocksBytes, |elist|, elist)
  {
    var header := |blocksBytes| + 4;
    var bytes := new byte[header + |Bytes.Flatten(elist)|](_ => 0);
    var _ := Bytes.Copy(blocksBytes, bytes, 0);
    Bytes.PutInteger(bytes, |blocksBytes|, |elist|);
    Layout(blocksBytes, Bytes.IntBytes(|elist|), Bytes.Flatten(elist));
    ghost var s := bytes[..];
    assert elist[0..] == elist;
    var index := header;
    var k := 0;
    while k < |elist|
      invariant 0 <= k <= |elist|
      invariant index == header + |Bytes.Flatten(elist[..k])|
      invariant index + |Bytes.Flatten(elist[k..])| <= bytes.Length
      invariant bytes[..] == Bytes.Splice(s, header, Bytes.Flatten(elist[..k]))
    {
      Bytes.CopyNext(bytes, s, header, elist, k, index);
      index := index + |elist[k]|;
      k := k + 1;
    }
    assert elist[..k] == elist;
    Appended(blocksBytes + Bytes.IntBytes(|elist|), Bytes.Flatten(elist));
    return bytes[..];
  }

  /** One more entry of `list` walked by `removeIf` or the serializing stream. */
  lemma FilterStep(list: seq<Entity>, p: Entity -> bool, i: nat)
    requires i < |list|
    ensures list[i..] == [list[i]] + list[i + 1..]
    ensures Keep(list[..i + 1], p) == Keep(list[..i], p) + if p(list[i]) then [] else [list[i]]
    ensures Selected(list[..i + 1], p) == Selected(list[..i], p) + if p(list[i]) then [list[i]] else []
    ensures Ids(Selected(list[..i + 1], p)) == Ids(Selected(list[..i], p)) + if p(list[i]) then {list[i].id} else {}
  {
    assert list[..i + 1][..i] == list[..i];
    IdsSnoc(Selected(list[..i], p), list[i]);
  }

  lemma MapMinus(m: map<int32, Entity>, a: set<int32>, k: int32)
    ensures m - a - {k} == m - (a + {k})
  {
  }

  /** One more entity seen by the filter-and-serialize stream. */
  lemma SerializeNext(lookup: map<Serializer.ClassName, short>, list: seq<Entity>, filter: Entity -> bool, i: nat)
    requires i < |list| && Sized(list) && filter(list[i])
    requires FilteredChunks(lookup, list[..i], filter).Ok?
    ensures FilteredChunks(lookup, list[..i + 1], filter) ==
      match Serializer.Encoded(lookup, Some(list[i].obj))
      case Err(x) => Err(x)
      case Ok(last) => Ok(FilteredChunks(lookup, list[..i], filter).value + [last])
  {
    FilterStep(list, filter, i);
    var objs := Objects(Selected(list[..i + 1], filter));
    assert objs[..|objs| - 1] == Objects(Selected(list[..i], filter));
  }

  /** An entity the filter refuses adds nothing to the stream. */
  lemma SkipNext(lookup: map<Serializer.ClassName, short>, list: seq<Entity>, filter: Entity -> bool, i: nat)
    requires i < |list| && Sized(list) && !filter(list[i])
    ensures FilteredChunks(lookup, list[..i + 1], filter) == FilteredChunks(lookup, list[..i], filter)
  {
    FilterStep(list, filter, i);
    assert Selected(list[..i], filter) + [] == Selected(list[..i], filter);
  }

  /** A serialization failure at entity `n - 1` is the stream's result. */
  lemma FilteredFails(lookup: map<Serializer.ClassName, short>, list: seq<Entity>, filter: Entity -> bool, n: nat)
    requires Sized(list) && n <= |list|
    requires Serializer.EncodeAll(lookup, Objects(Selected(list[..n], filter))).Err?
    ensures Serializer.EncodeAll(lookup, Objects(Selected(list, filter)))
      == Serializer.EncodeAll(lookup, Objects(Selected(list[..n], filter)))
  {
    SelectedPrefix(list, filter, n);
    var all := Objects(Selected(list, filter));
    var m := |Selected(list[..n], filter)|;
    assert all[..m] == Objects(Selected(list[..n], filter));
    forall k | 0 <= k < |all| ensures |all[k].value.bytes| <= INT_MAX {
      assert Selected(list, filter)[k] in list;
    }
    Serializer.EncodeAllFails(lookup, all, m);
  }

  /** Selecting from a prefix selects a prefix. */
  lemma {:induction false} SelectedPrefix(list: seq<Entity>, p: Entity -> bool, n: nat)
    requires n <= |list|
    ensures |Selected(list[..n], p)| <= |Selected(list, p)|
      && Selected(list[..n], p) == Selected(list, p)[..|Selected(list[..n], p)|]
    decreases |list|
  {
    if n < |list| {
      var init := list[..|list| - 1];
      assert init[..n] == list[..n];
      SelectedPrefix(init, p, n);
    } else {
      assert list[..n] == list;
    }
  }
}
