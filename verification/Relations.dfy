/** The catalog as relations: a set of typed documents, and every service
    operation on it.  CatalogService.dfy shows that the flat string-keyed store
    implements these operations. */
module Relations {
  import opened Wrappers
  import opened Naming

  datatype Doc =
    | DatabaseDoc(db: string)
    | CollectionDoc(db: string, coll: string, meta: string)
    | PartitionDoc(db: string, coll: string, part: string, kind: string)
    | AliasDoc(db: string, alias: string, coll: string)
    | IndexDoc(db: string, coll: string, index: string, field: string, itype: string, metric: string, params: map<string, string>)
    | LoadDoc(db: string, coll: string, loaded: bool, scope: string, parts: seq<string>, replicas: int)
    | OtherDoc(docType: string, name: string, body: string)   // users, roles, import jobs

  datatype DocKey =
    | DatabaseKey(db: string)
    | CollectionKey(db: string, coll: string)
    | PartitionKey(db: string, coll: string, part: string)
    | AliasKey(db: string, alias: string)
    | IndexKey(db: string, coll: string, index: string)
    | LoadKey(db: string, coll: string)
    | OtherKey(docType: string, name: string)

  /** The names in a key are those that its id spells.  Index names are not
      validated, and "/" is spelled "__", so an index is known by that spelling. */
  function KeyOf(d: Doc): DocKey {
    match d
    case DatabaseDoc(db) => DatabaseKey(db)
    case CollectionDoc(db, coll, _) => CollectionKey(db, coll)
    case PartitionDoc(db, coll, part, _) => PartitionKey(db, coll, part)
    case AliasDoc(db, alias, _) => AliasKey(db, alias)
    case IndexDoc(db, coll, index, _, _, _, _) => IndexKey(db, coll, Replace(index))
    case LoadDoc(db, coll, _, _, _, _) => LoadKey(db, coll)
    case OtherDoc(docType, name, _) => OtherKey(docType, name)
  }

  type Catalog = set<Doc>

  /** At most one document per key. */
  ghost predicate Keyed(c: Catalog) {
    forall d, e | d in c && e in c && KeyOf(d) == KeyOf(e) :: d == e
  }

  predicate Has(c: Catalog, key: DocKey) {
    exists d <- c :: KeyOf(d) == key
  }

  function Put(c: Catalog, d: Doc): Catalog {
    (set e | e in c && KeyOf(e) != KeyOf(d)) + {d}
  }

  function Delete(c: Catalog, key: DocKey): Catalog {
    set e | e in c && KeyOf(e) != key
  }

  const DEFAULT_DB := "default"
  const DEFAULT_PARTITION := "_default"

  // ---------- queries ----------

  function ListCollections(c: Catalog, db: string): set<string> {
    set d | d in c && d.CollectionDoc? && d.db == db :: d.coll
  }

  function ListPartitions(c: Catalog, db: string, coll: string): set<string> {
    (set d | d in c && d.PartitionDoc? && d.db == db && d.coll == coll :: d.part)
    + (if Has(c, CollectionKey(db, coll)) then {DEFAULT_PARTITION} else {})
  }

  function ListIndexes(c: Catalog, db: string, coll: string): set<Doc> {
    set d | d in c && d.IndexDoc? && d.db == db && d.coll == coll
  }

  /** The collection that an alias points to. */
  ghost function AliasTarget(c: Catalog, db: string, alias: string): (t: string)
    requires Has(c, AliasKey(db, alias))
    ensures AliasDoc(db, alias, t) in c
  {
    var d :| d in c && KeyOf(d) == AliasKey(db, alias);
    d.coll
  }

  /** resolve_collection_name */
  ghost function Resolve(c: Catalog, db: string, name: string): string {
    if Has(c, CollectionKey(db, name)) then name
    else if Has(c, AliasKey(db, name)) then AliasTarget(c, db, name)
    else name
  }

  ghost function MetaOf(c: Catalog, db: string, coll: string): (meta: string)
    requires Has(c, CollectionKey(db, coll))
    ensures CollectionDoc(db, coll, meta) in c
  {
    var d :| d in c && KeyOf(d) == CollectionKey(db, coll);
    d.meta
  }

  /** get_load_state: the stored document, or the default one. */
  ghost function LoadState(c: Catalog, db: string, coll: string): (d: Doc)
    ensures d.LoadDoc? && KeyOf(d) == LoadKey(db, coll)
    ensures Has(c, LoadKey(db, coll)) ==> d in c
    ensures !Has(c, LoadKey(db, coll)) ==> d == LoadDoc(db, coll, false, "collection", [], 1)
  {
    if Has(c, LoadKey(db, coll)) then
      var d :| d in c && KeyOf(d) == LoadKey(db, coll);
      d
    else LoadDoc(db, coll, false, "collection", [], 1)
  }

  // ---------- operations ----------

  datatype Error = ParamError | NotFound | AlreadyExists | FilesFailed

  /** The catalog after an operation, and the error it raised, if any. */
  datatype Step = Step(c: Catalog, error: Option<Error>)

  function Ok(c: Catalog): Step {
    Step(c, None)
  }

  function Err(c: Catalog, e: Error): Step {
    Step(c, Some(e))
  }

  function PartitionKind(part: string): string {
    if part == DEFAULT_PARTITION then "default_dir" else "explicit_dir"
  }

  /** What delete_collection_meta removes. */
  predicate Belongs(d: Doc, db: string, coll: string) {
    match d
    case CollectionDoc(b, n, _) => b == db && n == coll
    case PartitionDoc(b, n, _, _) => b == db && n == coll
    case IndexDoc(b, n, _, _, _, _, _) => b == db && n == coll
    case AliasDoc(b, _, n) => b == db && n == coll
    case LoadDoc(b, n, _, _, _, _) => b == db && n == coll
    case _ => false
  }

  function RemoveCollection(c: Catalog, db: string, coll: string): Catalog {
    set d | d in c && !Belongs(d, db, coll)
  }

  function CreateDatabase(c: Catalog, db: string): Step {
    if !ValidName(db) then Err(c, ParamError)
    else if Has(c, DatabaseKey(db)) then Err(c, AlreadyExists)
    else Ok(Put(c, DatabaseDoc(db)))
  }

  function DropDatabase(c: Catalog, db: string): Step {
    if !ValidName(db) || db == DEFAULT_DB then Err(c, ParamError)
    else if !Has(c, DatabaseKey(db)) then Err(c, NotFound)
    else if ListCollections(c, db) != {} then Err(c, ParamError)
    else Ok(Delete(c, DatabaseKey(db)))
  }

  /** `filesOk` is false when creating the partition directory fails: the
      documents put before it stay. */
  function CreateCollection(c: Catalog, db: string, coll: string, meta: string, filesOk: bool): Step {
    if !ValidName(coll) then Err(c, ParamError)
    else if !Has(c, DatabaseKey(db)) then Err(c, NotFound)
    else if Has(c, CollectionKey(db, coll)) then Err(c, AlreadyExists)
    else if !ValidName(db) then Err(c, ParamError)
    else
      var c1 := Put(Put(c, CollectionDoc(db, coll, meta)), PartitionDoc(db, coll, DEFAULT_PARTITION, PartitionKind(DEFAULT_PARTITION)));
      if !filesOk then Err(c1, FilesFailed)
      else Ok(Put(c1, LoadDoc(db, coll, false, "collection", [], 1)))
  }

  ghost function DropCollection(c: Catalog, db: string, name: string, filesOk: bool): Step {
    var coll := Resolve(c, db, name);
    if !Has(c, CollectionKey(db, coll)) then Err(c, NotFound)
    else if !filesOk then Err(c, FilesFailed)
    else Ok(RemoveCollection(c, db, coll))
  }

  /** Put a set of documents with distinct keys. */
  function PutAll(c: Catalog, ds: set<Doc>): Catalog {
    (set e | e in c && !Has(ds, KeyOf(e))) + ds
  }

  function MoveIndex(d: Doc, to: string): Doc {
    match d
    case IndexDoc(db, _, index, field, itype, metric, params) => IndexDoc(db, to, index, field, itype, metric, params)
    case _ => d
  }

  /** `x or 1` */
  function OrOne(n: int): int {
    if n == 0 then 1 else n
  }

  function MoveLoad(d: Doc, to: string): Doc
    requires d.LoadDoc?
  {
    LoadDoc(d.db, to, d.loaded, d.scope, d.parts, OrOne(d.replicas))
  }

  /** What a rename puts under the new name. */
  ghost function Relabelled(c: Catalog, db: string, coll: string, to: string): set<Doc>
    requires Has(c, CollectionKey(db, coll))
  {
    {CollectionDoc(db, to, MetaOf(c, db, coll))}
    + (set p | p in ListPartitions(c, db, coll) :: PartitionDoc(db, to, p, PartitionKind(p)))
    + (set d | d in ListIndexes(c, db, coll) :: MoveIndex(d, to))
    + {MoveLoad(LoadState(c, db, coll), to)}
  }

  ghost function RenameCollection(c: Catalog, db: string, coll: string, to: string, filesOk: bool): Step {
    if !ValidName(to) then Err(c, ParamError)
    else if !Has(c, CollectionKey(db, coll)) then Err(c, NotFound)
    else if Has(c, CollectionKey(db, to)) then Err(c, AlreadyExists)
    else if !filesOk then Err(c, FilesFailed)
    else Ok(PutAll(RemoveCollection(c, db, coll), Relabelled(c, db, coll, to)))
  }

  /** The request model refuses replica numbers below 1. */
  type ReplicaNumber = n: int | 1 <= n witness 1

  ghost function LoadCollection(c: Catalog, db: string, name: string, replicas: ReplicaNumber): Step {
    var coll := Resolve(c, db, name);
    if !Has(c, CollectionKey(db, coll)) then Err(c, NotFound)
    else Ok(Put(c, LoadDoc(db, coll, true, "collection", [], OrOne(replicas))))
  }

  ghost function ReleaseCollection(c: Catalog, db: string, name: string): Step {
    var coll := Resolve(c, db, name);
    if !Has(c, CollectionKey(db, coll)) then Err(c, NotFound)
    else Ok(Put(c, LoadDoc(db, coll, false, "collection", [], 1)))
  }

  ghost function CreatePartition(c: Catalog, db: string, name: string, part: string, filesOk: bool): Step {
    var coll := Resolve(c, db, name);
    if !ValidName(part) || part == DEFAULT_PARTITION then Err(c, ParamError)
    else if !Has(c, CollectionKey(db, coll)) then Err(c, NotFound)
    else if Has(c, PartitionKey(db, coll, part)) then Err(c, AlreadyExists)
    else
      var c1 := Put(c, PartitionDoc(db, coll, part, PartitionKind(part)));
      if !filesOk then Err(c1, FilesFailed) else Ok(c1)
  }

  ghost function DropPartition(c: Catalog, db: string, name: string, part: string, filesOk: bool): Step {
    var coll := Resolve(c, db, name);
    if part == DEFAULT_PARTITION then Err(c, ParamError)
    else if !Has(c, PartitionKey(db, coll, part)) then Err(c, NotFound)
    else if !filesOk then Err(c, FilesFailed)
    else Ok(Delete(c, PartitionKey(db, coll, part)))
  }

  ghost function LoadPartitions(c: Catalog, db: string, name: string, parts: seq<string>): Step {
    var coll := Resolve(c, db, name);
    if !Has(c, CollectionKey(db, coll)) then Err(c, NotFound)
    else Ok(Put(c, LoadDoc(db, coll, true, "partition", parts, 1)))
  }

  /** No require_collection here: releasing everything of a name that does not
      exist stores a load document for it, with loaded=false. */
  ghost function ReleasePartitions(c: Catalog, db: string, name: string, parts: seq<string>): Step {
    var coll := Resolve(c, db, name);
    if parts == [] || ListPartitions(c, db, coll) <= (set p | p in parts)
    then Ok(Put(c, LoadDoc(db, coll, false, "collection", [], 1)))
    else Ok(c)
  }

  function CreateAlias(c: Catalog, db: string, alias: string, coll: string): Step {
    if !ValidName(alias) then Err(c, ParamError)
    else if !Has(c, CollectionKey(db, coll)) then Err(c, NotFound)
    else if Has(c, AliasKey(db, alias)) || Has(c, CollectionKey(db, alias)) then Err(c, AlreadyExists)
    else Ok(Put(c, AliasDoc(db, alias, coll)))
  }

  function AlterAlias(c: Catalog, db: string, alias: string, coll: string): Step {
    if !Has(c, AliasKey(db, alias)) then Err(c, NotFound)
    else if !Has(c, CollectionKey(db, coll)) then Err(c, NotFound)
    else Ok(Put(c, AliasDoc(db, alias, coll)))
  }

  function DropAlias(c: Catalog, db: string, alias: string): Step {
    if !Has(c, AliasKey(db, alias)) then Err(c, NotFound)
    else Ok(Delete(c, AliasKey(db, alias)))
  }

  /** `rebuildOk` is false when applying the index to the partitions fails: the
      document put before it stays. */
  ghost function CreateIndex(c: Catalog, db: string, name: string, index: string, field: string, itype: string,
                             metric: string, params: map<string, string>, paramsOk: bool, rebuildOk: bool): Step {
    var coll := Resolve(c, db, name);
    if !Has(c, CollectionKey(db, coll)) then Err(c, NotFound)
    else if !paramsOk then Err(c, ParamError)
    else
      var c1 := Put(c, IndexDoc(db, coll, index, field, itype, metric, params));
      if !rebuildOk then Err(c1, FilesFailed) else Ok(c1)
  }

  ghost function DropIndex(c: Catalog, db: string, name: string, index: string): Step {
    var coll := Resolve(c, db, name);
    if index == "" then Err(c, ParamError)
    else if !Has(c, IndexKey(db, coll, Replace(index))) then Err(c, NotFound)
    else Ok(Delete(c, IndexKey(db, coll, Replace(index))))
  }

  datatype Op =
    | OpCreateDatabase(db: string)
    | OpDropDatabase(db: string)
    | OpCreateCollection(db: string, coll: string, meta: string, filesOk: bool)
    | OpDropCollection(db: string, name: string, filesOk: bool)
    | OpRename(db: string, coll: string, to: string, filesOk: bool)
    | OpLoad(db: string, name: string, replicas: ReplicaNumber)
    | OpRelease(db: string, name: string)
    | OpCreatePartition(db: string, name: string, part: string, filesOk: bool)
    | OpDropPartition(db: string, name: string, part: string, filesOk: bool)
    | OpLoadPartitions(db: string, name: string, parts: seq<string>)
    | OpReleasePartitions(db: string, name: string, parts: seq<string>)
    | OpCreateAlias(db: string, alias: string, coll: string)
    | OpAlterAlias(db: string, alias: string, coll: string)
    | OpDropAlias(db: string, alias: string)
    | OpCreateIndex(db: string, name: string, index: string, field: string, itype: string, metric: string,
                    params: map<string, string>, paramsOk: bool, rebuildOk: bool)
    | OpDropIndex(db: string, name: string, index: string)
    | OpPutOther(docType: string, name: string, body: string)
    | OpDeleteOther(docType: string, name: string)

  ghost function Apply(c: Catalog, op: Op): Step {
    match op
    case OpCreateDatabase(db) => CreateDatabase(c, db)
    case OpDropDatabase(db) => DropDatabase(c, db)
    case OpCreateCollection(db, coll, meta, filesOk) => CreateCollection(c, db, coll, meta, filesOk)
    case OpDropCollection(db, name, filesOk) => DropCollection(c, db, name, filesOk)
    case OpRename(db, coll, to, filesOk) => RenameCollection(c, db, coll, to, filesOk)
    case OpLoad(db, name, replicas) => LoadCollection(c, db, name, replicas)
    case OpRelease(db, name) => ReleaseCollection(c, db, name)
    case OpCreatePartition(db, name, part, filesOk) => CreatePartition(c, db, name, part, filesOk)
    case OpDropPartition(db, name, part, filesOk) => DropPartition(c, db, name, part, filesOk)
    case OpLoadPartitions(db, name, parts) => LoadPartitions(c, db, name, parts)
    case OpReleasePartitions(db, name, parts) => ReleasePartitions(c, db, name, parts)
    case OpCreateAlias(db, alias, coll) => CreateAlias(c, db, alias, coll)
    case OpAlterAlias(db, alias, coll) => AlterAlias(c, db, alias, coll)
    case OpDropAlias(db, alias) => DropAlias(c, db, alias)
    case OpCreateIndex(db, name, index, field, itype, metric, params, paramsOk, rebuildOk) =>
      CreateIndex(c, db, name, index, field, itype, metric, params, paramsOk, rebuildOk)
    case OpDropIndex(db, name, index) => DropIndex(c, db, name, index)
    case OpPutOther(docType, name, body) => Ok(Put(c, OtherDoc(docType, name, body)))
    case OpDeleteOther(docType, name) => Ok(Delete(c, OtherKey(docType, name)))
  }

  /** The catalog after a sequence of operations, whether they succeed or fail. */
  ghost function ApplyAll(c: Catalog, ops: seq<Op>): Catalog {
    if ops == [] then c else Apply(ApplyAll(c, ops[..|ops| - 1]), ops[|ops| - 1]).c
  }
}
