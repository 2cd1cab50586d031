/** Backend selection at start-up from the STORAGE_TYPE setting and whether a
    database pool was connected. The setting is read by the caller and passed
    in. */
module Storage {

  datatype Backend = Memory | Database

  datatype Selection = Selected(backend: Backend) | Panic(message: string)

  const StorageTypeDB: string := "db"
  const StorageTypeMemory: string := "memory"

  /** "memory" always picks the in-process store; "db" needs a pool and
      panics without one; any other value follows the pool. */
  function NewStorage(storageType: string, poolPresent: bool): (r: Selection)
    ensures r.Panic? <==> storageType == StorageTypeDB && !poolPresent
    ensures r.Panic? ==> r.message == "database connection is required for database storage"
    ensures r == Selected(Memory) <==>
      storageType == StorageTypeMemory || (storageType != StorageTypeDB && !poolPresent)
    ensures r == Selected(Database) <==> storageType != StorageTypeMemory && poolPresent
  {
    if storageType == StorageTypeMemory then Selected(Memory)
    else if storageType == StorageTypeDB then
      if !poolPresent then Panic("database connection is required for database storage")
      else Selected(Database)
    else if poolPresent then Selected(Database)
    else Selected(Memory)
  }
}
