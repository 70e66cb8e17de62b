/**
 * The two database tables of the REST service: devices, unique by name, and image
 * results, keyed by their string primary key and linked to a device.
 */
module ApiModels {

  /** A row of the image-result table; `createdDate`/`updatedDate` are clock readings. */
  datatype ImageResult = ImageResult(
    id: string,
    device: string,
    averageBeforeNormalization: real,
    averageAfterNormalization: real,
    dataSize: int,
    createdDate: int,
    updatedDate: int)

  class Database {
    /** Device names; a set, so a name occurs at most once (the unique constraint). */
    var devices: set<string>
    /** Image results by primary key; a map, so an id occurs at most once. */
    var imageResults: map<string, ImageResult>

    /** Each row is stored under its own id and refers to an existing device. */
    ghost predicate Valid()
      reads this
    {
      forall id :: id in imageResults ==> imageResults[id].id == id && imageResults[id].device in devices
    }

    constructor ()
      ensures devices == {} && imageResults == map[] && Valid()
    {
      devices := {};
      imageResults := map[];
    }

    /** `id_exists`: whether a row with this primary key is stored. */
    predicate IdExists(id: string)
      reads this
    {
      id in imageResults
    }

    /**
     * The lookup by key answers the filter `id == v` over the rows: some stored row has that
     * id exactly when the key is present, because every row sits under its own id.
     */
    lemma IdExistsIsQuery(v: string)
      requires Valid()
      ensures IdExists(v) <==> exists k :: k in imageResults && imageResults[k].id == v
    {
      if IdExists(v) {
        assert imageResults[v].id == v;
      }
    }

    /** `get_or_create` on the device table: afterwards the name is present, added only if it was absent. */
    method GetOrCreateDevice(name: string) returns (created: bool)
      modifies this`devices
      ensures devices == old(devices) + {name}
      ensures created <==> name !in old(devices)
    {
      created := name !in devices;
      devices := devices + {name};
    }

    /**
     * `actualizar_dispositivo`: links row `id` to the device called `name`, creating the device
     * only if no device has that name, and refreshes the row's update time. Nothing else in
     * the row or the tables changes, so repeating the call adds no second device.
     */
    method UpdateDevice(id: string, name: string, now: int)
      requires Valid() && id in imageResults
      modifies this
      ensures Valid()
      ensures devices == old(devices) + {name}
      ensures name in old(devices) ==> devices == old(devices)
      ensures imageResults == old(imageResults)[id := old(imageResults)[id].(device := name, updatedDate := now)]
    {
      var _ := GetOrCreateDevice(name);
      imageResults := imageResults[id := imageResults[id].(device := name, updatedDate := now)];
    }
  }
}
