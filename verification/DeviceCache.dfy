/** The cache of devices: weak pointers to data that device handles share (backend/api/DeviceStorage.cpp,
    backend/api/Device.cpp). The serializer is the map of its records. */
module DeviceCache {
  import opened Wrappers
  import opened Actions
  import opened RowKeys

  type DeviceId = nat

  datatype Record = Record(
    name: string, icon: string, groups: seq<string>, kind: string, api: string, values: map<string, Value>)

  /** Device::Data, shared by all handles to one device. */
  class DeviceData {
    var record: Record

    constructor (record: Record)
      ensures this.record == record
    {
      this.record := record;
    }
  }

  // MetadataEntry, without access rights and fetch frequency
  datatype DataType = NoType | Boolean | Integer | FloatingPoint | Text | Custom
  datatype DBSave = Never | Save | SaveLog
  datatype MetadataEntry = MetadataEntry(dataType: DataType, save: DBSave, optional: bool)

  // ValidateType
  predicate ValidateType(meta: MetadataEntry, value: Value) {
    if meta.optional && value.NullValue? then true
    else
      match meta.dataType
      case NoType => value.NullValue?
      case Boolean => value.BoolValue?
      case Integer => value.IntValue?
      case FloatingPoint => value.FloatValue?
      case Text => value.StringValue?
      case Custom => true
  }

  /** What the type of a device says about its properties: their metadata, and ValidateUpdate, which may be anything. */
  datatype Types = Types(
    metadata: (string, string) -> Option<MetadataEntry>, validate: (string, string, Value) -> bool)
  {
    // The property is kept by the serializer
    predicate Saved(kind: string, path: string) {
      metadata(kind, path).Some? && !metadata(kind, path).value.save.Never?
    }

    /** HasEntry and Validate; CheckPermissions allows everything. By the kind of the value: no number is turned into
        the other kind of number, and null goes only where it is allowed; the type of the device may refuse more. */
    predicate Accepts(kind: string, path: string, value: Value): (accepted: bool)
      ensures metadata(kind, path).None? ==> !accepted
      ensures metadata(kind, path).Some? ==>
        var MetadataEntry(dataType, save, optional) := metadata(kind, path).value;
        accepted <==>
          && (value.NullValue? ==> optional || dataType in {NoType, Custom})
          && (value.BoolValue? ==> dataType in {Boolean, Custom})
          && (value.IntValue? ==> dataType in {Integer, Custom})
          && (value.FloatValue? ==> dataType in {FloatingPoint, Custom})
          && (value.StringValue? ==> dataType in {Text, Custom})
          && validate(kind, path, value)
    {
      && metadata(kind, path).Some?
      && ValidateType(metadata(kind, path).value, value)
      && validate(kind, path, value)
    }
  }

  /** Same device, up to the properties whose metadata says that they are not saved. */
  ghost predicate Agree(types: Types, a: Record, b: Record) {
    && a.(values := map[]) == b.(values := map[])
    && forall k :: types.Saved(a.kind, k) ==>
         (k in a.values <==> k in b.values) && (k in a.values ==> a.values[k] == b.values[k])
  }

  // No two devices share an object
  ghost predicate Distinct(cache: map<DeviceId, DeviceData>) {
    forall i, j :: i in cache && j in cache && i != j ==> cache[i] != cache[j]
  }

  // What has a handle is alive and cached
  ghost predicate Held(handles: set<(DeviceId, DeviceData)>, live: set<DeviceData>, cache: map<DeviceId, DeviceData>) {
    forall h :: h in handles ==> h.1 in live && h.0 in cache && cache[h.0] == h.1
  }

  ghost function Without(handles: set<(DeviceId, DeviceData)>, id: DeviceId): set<(DeviceId, DeviceData)> {
    set h | h in handles && h.0 != id
  }

  // An object that is not in the cache yet takes the place of an expired one
  lemma Replaced(handles: set<(DeviceId, DeviceData)>, live: set<DeviceData>, cache: map<DeviceId, DeviceData>,
                 id: DeviceId, data: DeviceData)
    requires Distinct(cache) && Held(handles, live, cache) && data !in cache.Values
    requires id in cache ==> cache[id] !in live
    ensures Distinct(cache[id := data]) && Held(handles + {(id, data)}, live + {data}, cache[id := data])
    ensures forall i :: i in cache && i != id ==> cache[i] != data
  {
    assert forall i :: i in cache ==> cache[i] in cache.Values;
  }

  lemma Removed(handles: set<(DeviceId, DeviceData)>, live: set<DeviceData>, cache: map<DeviceId, DeviceData>,
                id: DeviceId, loaded: set<DeviceData>)
    requires Distinct(cache) && Held(handles, live, cache) && forall h :: h in handles && h.1 in loaded ==> h.0 == id
    ensures Distinct(cache - {id}) && Held(Without(handles, id), live - loaded, cache - {id})
  {
  }

  class DeviceStorage {
    // The serializer's table
    var records: map<DeviceId, Record>
    // m_cache: entries whose object is not in `live` have expired
    var cache: map<DeviceId, DeviceData>
    // Objects some handle keeps alive: those whose reference count is not zero
    var live: set<DeviceData>
    // Handles to devices that have not been removed
    ghost var handles: set<(DeviceId, DeviceData)>
    // The serializer's log of property values
    var log: seq<(DeviceId, string, Value)>
    const types: Types

    constructor (records: map<DeviceId, Record>, types: Types)
      ensures Valid() && this.records == records && this.types == types && handles == {} && log == []
    {
      this.records, this.types := records, types;
      cache, live, handles, log := map[], {}, {}, [];
    }

    /** The cache cannot be seen: what a live entry holds is what the serializer has, and all handles to a device
        share the object that is cached for it. */
    ghost predicate Valid()
      reads this, cache.Values
    {
      && Distinct(cache)
      && (forall id :: id in cache && cache[id] in live ==>
            id in records && Agree(types, cache[id].record, records[id]))
      && Held(handles, live, cache)
    }

    /** AddDevice with data no one else uses; the handle it was passed in is dropped after the call. */
    method AddDevice(data: DeviceData) returns (id: DeviceId)
      requires Valid() && data !in cache.Values && data !in live
      modifies this`records, this`cache
      ensures Valid() && id !in old(records) && records == old(records)[id := data.record]
      ensures handles == old(handles) && live == old(live)
    {
      id := FreshKey(records.Keys);
      records := records[id := data.record];
      var before := cache;
      cache := cache[id := data];
      assert forall i :: i in cache && i != id ==> i in before && cache[i] == before[i] && before[i] in before.Values;
    }

    // The rest of GetDevice: a new object is made from the serializer's record and cached
    method Load(id: DeviceId) returns (data: DeviceData)
      requires Valid() && id in records && !(id in cache && cache[id] in live)
      modifies this`cache, this`live, this`handles
      ensures Valid() && records == old(records) && fresh(data) && data.record == records[id]
      ensures handles == old(handles) + {(id, data)}
      ensures cache == old(cache)[id := data] && live == old(live) + {data}
    {
      data := new DeviceData(records[id]);
      Replaced(handles, live, cache, id, data);
      cache := cache[id := data];
      live := live + {data};
      handles := handles + {(id, data)};
    }

    /** GetDevice: a device is found exactly if the serializer has it, with the data the serializer has, and it is
        the very object other handles share. */
    method GetDevice(id: DeviceId) returns (found: Option<DeviceData>)
      requires Valid()
      modifies this`cache, this`live, this`handles
      ensures Valid() && records == old(records)
      ensures found.Some? <==> id in records
      ensures found.Some? ==>
        && Agree(types, found.value.record, records[id])
        && handles == old(handles) + {(id, found.value)}
        && (forall o :: (id, o) in old(handles) ==> o == found.value)
        && (found.value !in old(live) ==> fresh(found.value))
        && cache == old(cache)[id := found.value] && live == old(live) + {found.value}
      ensures found.None? ==> handles == old(handles) && cache == old(cache) && live == old(live)
    {
      if id in cache && cache[id] in live {
        assert cache == cache[id := cache[id]];
        handles := handles + {(id, cache[id])};
        return Some(cache[id]);
      }
      if id in records {
        var data := Load(id);
        return Some(data);
      }
      return None;
    }

    /** The last handle to a device goes out of scope. */
    method DropHandle(id: DeviceId, data: DeviceData)
      requires Valid() && (id, data) in handles
      modifies this`live, this`handles
      ensures Valid() && records == old(records) && cache == old(cache)
      ensures handles == old(handles) - {(id, data)} && live == old(live) - {data}
    {
      live := live - {data};
      handles := handles - {(id, data)};
    }

    /** A handle is edited and passed to ChangeDevice: all handles see the edit, and so does the serializer. */
    method EditAndChange(id: DeviceId, data: DeviceData, edited: Record)
      requires Valid() && (id, data) in handles
      modifies this`records, this`cache, data
      ensures Valid() && data.record == edited && records == old(records)[id := edited]
      ensures handles == old(handles) && live == old(live) && cache == old(cache)
    {
      data.record := edited;
      ChangeDevice(id, data);
    }

    // ChangeDevice: while its handle lives, the entry it writes is there already
    method ChangeDevice(id: DeviceId, data: DeviceData)
      requires (id, data) in handles && id in records && id in cache && cache[id] == data && data in live
      requires Distinct(cache) && Held(handles, live, cache)
      requires forall i :: i in cache && cache[i] in live && i != id ==>
        i in records && Agree(types, cache[i].record, records[i])
      modifies this`records, this`cache
      ensures Valid() && records == old(records)[id := data.record]
      ensures handles == old(handles) && live == old(live) && cache == old(cache)
    {
      records := records[id := data.record];
      var before := cache;
      cache := cache[id := data];
      assert cache == before;
    }

    /** RemoveDevice: the record, the cache entry and the handles of that device go, and nothing else. Objects that
        other handles keep alive stay alive, but are of no more use. */
    method RemoveDevice(id: DeviceId)
      requires Valid()
      modifies this`records, this`cache, this`live, this`handles
      ensures Valid() && records == old(records) - {id} && cache == old(cache) - {id} && live == old(live)
      ensures handles == Without(old(handles), id)
    {
      var before := live;
      var d := GetDevice(id);
      assert Without(handles, id) == Without(old(handles), id);
      assert cache - {id} == old(cache) - {id};
      var loaded := live - before;
      assert d.Some? ==> loaded <= {d.value} && (loaded != {} ==> (id, d.value) in handles);
      Forget(id, loaded);
      assert live == old(live);
    }

    // What RemoveDevice does after its call of GetDevice; the object that call loaded dies with it
    method Forget(id: DeviceId, loaded: set<DeviceData>)
      requires Valid() && forall h :: h in handles && h.1 in loaded ==> h.0 == id
      modifies this`records, this`cache, this`live, this`handles
      ensures Valid() && records == old(records) - {id} && cache == old(cache) - {id}
      ensures handles == Without(old(handles), id)
      ensures live == old(live) - loaded
    {
      Removed(handles, live, cache, id, loaded);
      cache := cache - {id};
      records := records - {id};
      handles := Without(handles, id);
      live := live - loaded;
    }

    /** Properties::Set on the data of a handle: it succeeds exactly if the type of the device knows the property and
        accepts the value. Handles and record go on agreeing, and a logged property gets one entry in the log. */
    method SetProperty(id: DeviceId, data: DeviceData, path: string, value: Value) returns (done: bool)
      requires Valid() && (id, data) in handles
      modifies this, data
      ensures Valid() && done == types.Accepts(old(data.record).kind, path, value)
      ensures data.record == if done then old(data.record).(values := old(data.record).values[path := value])
                             else old(data.record)
      ensures records ==
        if done && !types.metadata(data.record.kind, path).value.save.Never? then
          old(records)[id := old(records)[id].(values := old(records)[id].values[path := value])]
        else old(records)
      ensures log ==
        if done && types.metadata(data.record.kind, path).value.save.SaveLog? then old(log) + [(id, path, value)]
        else old(log)
      ensures handles == old(handles) && live == old(live) && cache == old(cache)
    {
      var kind := data.record.kind;
      if types.metadata(kind, path).None? {
        return false;
      }
      var meta := types.metadata(kind, path).value;
      if !ValidateType(meta, value) || !types.validate(kind, path, value) {
        return false;
      }
      var existed := path in data.record.values;
      assert id in records && Agree(types, data.record, records[id]);
      data.record := data.record.(values := data.record.values[path := value]);
      SaveProperty(id, path, value, existed, meta);
      return true;
    }

    // SaveDatabase for a property that existed, InsertDatabase for a new one
    method SaveProperty(id: DeviceId, path: string, value: Value, existed: bool, meta: MetadataEntry)
      requires id in records && (!meta.save.Never? ==> (existed <==> path in records[id].values))
      modifies this`records, this`log
      ensures records ==
        if meta.save.Never? then old(records)
        else old(records)[id := old(records)[id].(values := old(records)[id].values[path := value])]
      ensures log == if meta.save.SaveLog? then old(log) + [(id, path, value)] else old(log)
    {
      if !meta.save.Never? {
        if existed {
          UpdateProperty(id, path, value);
        } else {
          InsertProperty(id, path, value);
        }
      }
      if meta.save.SaveLog? {
        log := log + [(id, path, value)];
      }
    }

    // The serializer updates the row of a property, if there is one
    method UpdateProperty(id: DeviceId, path: string, value: Value)
      requires id in records
      modifies this`records
      ensures records ==
        if path in old(records)[id].values then
          old(records)[id := old(records)[id].(values := old(records)[id].values[path := value])]
        else old(records)
    {
      if path in records[id].values {
        records := records[id := records[id].(values := records[id].values[path := value])];
      }
    }

    // The serializer adds the row of a property
    method InsertProperty(id: DeviceId, path: string, value: Value)
      requires id in records
      modifies this`records
      ensures records == old(records)[id := old(records)[id].(values := old(records)[id].values[path := value])]
    {
      records := records[id := records[id].(values := records[id].values[path := value])];
    }

    /** CleanupCache: exactly the expired entries go. */
    method CleanupCache()
      requires Valid()
      modifies this`cache
      ensures Valid() && records == old(records) && handles == old(handles) && live == old(live)
      ensures cache == map id | id in old(cache) && old(cache)[id] in live :: old(cache)[id]
    {
      var before := cache;
      var rest := cache.Keys;
      while rest != {}
        invariant rest <= before.Keys
        invariant records == old(records) && handles == old(handles) && live == old(live)
        invariant cache == map id | id in before && (id in rest || before[id] in live) :: before[id]
        decreases rest
      {
        var id :| id in rest;
        rest := rest - {id};
        if cache[id] !in live {
          cache := cache - {id};
        }
      }
      assert forall i :: i in cache ==> i in before && cache[i] == before[i] && before[i] in before.Values;
    }
  }
}
