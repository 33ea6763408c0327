/** What each operation of the store does to the disk: the system calls it makes, as a function of the disk it starts from. */
module StoreModel {
  import opened Wrappers
  import opened Text
  import opened Wal
  import opened Documents
  import opened Encrypt
  import opened FileSystem

  /** The keys, and the nonces the random source will yield. */
  datatype Env = Env(keys: Keys, rand: nat -> Nonce)

  // ---- The index ----

  datatype LoadError = CannotOpen | NotAnIndex

  function LoadIndex(k: Keys, d: Disk): Result<seq<IndexEntry>, LoadError> {
    match d.index
    case None => Ok([])
    case Some(data) =>
      match Open(k, SENTINEL_ID, SENTINEL_TIME, data)
      case Ok(IndexDoc(entries)) => Ok(entries)
      case Ok(_) => Err(NotAnIndex)
      case Err(_) => Err(CannotOpen)
  }

  /** appendIndex and replay discard load errors. */
  function IndexRows(k: Keys, d: Disk): seq<IndexEntry> { LoadIndex(k, d).GetOr([]) }

  /** The timestamp of the first row with this id. */
  function Find(es: seq<IndexEntry>, hexId: string): Option<int64> {
    if es == [] then None
    else if es[0].id == hexId then Some(es[0].ts)
    else Find(es[1..], hexId)
  }

  function Without(es: seq<IndexEntry>, hexId: string): seq<IndexEntry> {
    if es == [] then []
    else if es[0].id == hexId then Without(es[1..], hexId)
    else [es[0]] + Without(es[1..], hexId)
  }

  function AddRow(es: seq<IndexEntry>, id: NodeId, ts: int64): seq<IndexEntry> {
    if Find(es, HexEncode(id)).Some? then es else es + [IndexEntry(HexEncode(id), ts)]
  }

  function SealIndex(env: Env, n: nat, es: seq<IndexEntry>): Blob {
    Seal(env.keys, SENTINEL_ID, SENTINEL_TIME, env.rand(n), IndexDoc(es))
  }

  function SaveCalls(env: Env, n: nat, es: seq<IndexEntry>): seq<Syscall> {
    [WriteTmp(SealIndex(env, n, es)), RenameTmp]
  }

  function AppendIndexCalls(env: Env, n: nat, d: Disk, id: NodeId, ts: int64): seq<Syscall> {
    var es := IndexRows(env.keys, d);
    if Find(es, HexEncode(id)).Some? then [] else SaveCalls(env, n, AddRow(es, id, ts))
  }

  /** A failed read of index.enc is discarded: the new row is then saved alone. */
  function AppendCalls(env: Env, n: nat, d: Disk, id: NodeId, ts: int64, blind: bool): seq<Syscall> {
    if blind then SaveCalls(env, n, [IndexEntry(HexEncode(id), ts)]) else AppendIndexCalls(env, n, d, id, ts)
  }

  /** How many sealings of the index a list of calls contains. */
  function Saves(calls: seq<Syscall>): nat {
    if calls == [] then 0 else (if calls[0].WriteTmp? then 1 else 0) + Saves(calls[1..])
  }

  // ---- Writing and deleting ----

  function Stamped(node: MemoryNode): MemoryNode { node.(schemaVersion := SCHEMA_VERSION) }

  function SealNode(env: Env, n: nat, node: MemoryNode): Blob {
    Seal(env.keys, node.id, node.capturedAt, env.rand(n), NodeDoc(Stamped(node)))
  }

  function LogLine(id: NodeId, ts: int64): string { PrintLine(WalEntry(id, ts)) }

  function WriteRecordCalls(env: Env, n: nat, d: Disk, id: NodeId, ts: int64, payload: Blob): seq<Syscall> {
    [AppendWal(LogLine(id, ts)), WriteNode(id, payload)] + AppendIndexCalls(env, n, d, id, ts)
  }

  function WriteCalls(env: Env, n: nat, d: Disk, node: MemoryNode): seq<Syscall> {
    WriteRecordCalls(env, n + 1, d, node.id, node.capturedAt, SealNode(env, n, node))
  }

  function DeleteCalls(env: Env, n: nat, d: Disk, id: NodeId): seq<Syscall> {
    [RemoveNode(id)]
    + match LoadIndex(env.keys, d)
      case Ok(es) => SaveCalls(env, n, Without(es, HexEncode(id)))
      case Err(_) => []
  }

  // ---- Startup ----

  function MigrateCalls(env: Env, n: nat, d: Disk): seq<Syscall> {
    match d.legacy
    case None => []
    case Some(legacy) =>
      if d.index.Some? then [RemoveLegacy]
      else
        match legacy
        case Garbage => []
        case Listed(es) => SaveCalls(env, n, es) + [RemoveLegacy]
  }

  function LogEntries(d: Disk): seq<WalEntry> { Parse(d.wal.GetOr("")) }

  function IdSet(es: seq<IndexEntry>): set<string> { set e | e in es :: e.id }

  function ReindexCalls(env: Env, n: nat, d: Disk, log: seq<WalEntry>, inIndex: set<string>): seq<Syscall>
    decreases |log|
  {
    if log == [] then []
    else
      var e := log[0];
      if HexEncode(e.id) in inIndex || e.id !in d.nodes then ReindexCalls(env, n, d, log[1..], inIndex)
      else
        var calls := AppendIndexCalls(env, n, d, e.id, e.ts);
        calls + ReindexCalls(env, n + Saves(calls), Run(d, calls), log[1..], inIndex)
  }

  function ReplayCalls(env: Env, n: nat, d: Disk): seq<Syscall> {
    if d.wal.None? then []
    else ReindexCalls(env, n, d, LogEntries(d), IdSet(IndexRows(env.keys, d))) + [RemoveWal]
  }

  function BootCalls(env: Env, n: nat, d: Disk): seq<Syscall> {
    var migrate := MigrateCalls(env, n, d);
    migrate + ReplayCalls(env, n + Saves(migrate), Run(d, migrate))
  }

  // ---- Reading ----

  /** time.Time{}.UnixNano(): year 1 does not fit, and the product wraps. */
  const ZERO_TIME: int64 := -6795364578871345152

  /** The seconds from year 1 to 1970, in nanoseconds, modulo 64 bits. */
  lemma ZeroTimeWraps()
    ensures (ZERO_TIME - -62135596800 * 1000000000) % 0x1_0000_0000_0000_0000 == 0
  {
  }

  datatype ReadError = NotFound | Unreadable(e: OpenError) | NotANode

  /** The timestamp of the node's row, or the zero time when it has none. */
  function RowTime(k: Keys, d: Disk, id: NodeId): int64 { Find(IndexRows(k, d), HexEncode(id)).GetOr(ZERO_TIME) }

  function Read(k: Keys, d: Disk, id: NodeId): Result<MemoryNode, ReadError> {
    if id !in d.nodes then Err(NotFound)
    else
      match Open(k, id, RowTime(k, d, id), d.nodes[id])
      case Ok(NodeDoc(node)) => Ok(node)
      case Ok(_) => Err(NotANode)
      case Err(e) => Err(Unreadable(e))
  }
}
