/**
  Entities of the replica catalog: data identifiers (files and collections),
  containment edges, replica rows, per-RSE counters and the catalog's errors.
  Timestamps are integer seconds; an RSE (storage endpoint) is identified by
  its name.
 */
module ReplicaTypes {

  datatype Option<T> = None | Some(value: T)

  /** A data identifier: the (scope, name) pair naming a file or a collection. */
  datatype Did = Did(scope: string, name: string)

  datatype DidType = FILE | DATASET | CONTAINER

  /** A row of the data-identifier table, as far as this core reads or writes it. */
  datatype DidRecord = DidRecord(
    didType: DidType,
    bytes: int,
    md5: Option<string>,
    adler32: Option<string>,
    account: string,
    isOpen: bool)

  /** A containment edge parent -> child; the child's type is stored on the edge. */
  datatype Edge = Edge(parent: Did, child: Did, childType: DidType)

  type RseName = string

  /** What the storage-endpoint directory says about an RSE. */
  datatype RseInfo = RseInfo(deterministic: bool)

  datatype ReplicaState = AVAILABLE | UNAVAILABLE | BEING_DELETED

  /** The primary key of a replica row. */
  datatype ReplicaKey = ReplicaKey(rse: RseName, did: Did)

  /** The identifiers of a set of rows. */
  function DidsOf(keys: set<ReplicaKey>): set<Did>
  {
    set k | k in keys :: k.did
  }

  /** A replica row; a tombstone of None means "protected from garbage collection". */
  datatype Replica = Replica(
    bytes: int,
    path: Option<string>,
    state: ReplicaState,
    md5: Option<string>,
    adler32: Option<string>,
    lockCnt: int,
    tombstone: Option<int>)

  /** A (number of files, number of bytes) pair: an RSE counter or a partial sum. */
  datatype Usage = Usage(files: int, bytes: int)

  function Plus(a: Usage, b: Usage): Usage
  {
    Usage(a.files + b.files, a.bytes + b.bytes)
  }

  function Minus(a: Usage, b: Usage): Usage
  {
    Usage(a.files - b.files, a.bytes - b.bytes)
  }

  /** One file entry of an add_replicas request. A `pfn` of None means the key is absent. */
  datatype FileSpec = FileSpec(
    did: Did,
    bytes: int,
    md5: Option<string>,
    adler32: Option<string>,
    account: Option<string>,
    pfn: Option<string>,
    path: Option<string>,
    tombstone: Option<int>)

  /** A file as the registrar returns it: identity, size and checksums. */
  datatype FileRow = FileRow(did: Did, bytes: int, md5: Option<string>, adler32: Option<string>)

  datatype CatalogError =
    | RSENotFound
    | RucioException
    | Duplicate
    | UnsupportedOperation
    | ReplicaNotFound(found: set<Did>)
    | DataIdentifierNotFound(did: Did)
    | NoResultFound
    | TypeError

  datatype Result<T> = Ok(value: T) | Err(error: CatalogError)

  /** The default lifetime of a new replica: two weeks, in seconds. */
  const TWO_WEEKS: int := 14 * 24 * 60 * 60
}
