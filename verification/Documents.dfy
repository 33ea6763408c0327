/** The two kinds of document the store seals. Their JSON form is lossless and otherwise abstract. */
module Documents {
  import opened Text
  import opened Wal

  const SCHEMA_VERSION := 1

  type Embedding = seq<real>

  datatype MemoryNode = MemoryNode(
    schemaVersion: int,
    id: NodeId,
    capturedAt: int64,
    description: string,
    tags: seq<string>,
    processName: string,
    windowTitle: string,
    browserURL: string,
    embedding: Embedding,
    engagementScore: real,
    viewCount: int)

  /** A row of the index: the id in hexadecimal, and the timestamp the node was sealed with. */
  datatype IndexEntry = IndexEntry(id: string, ts: int64)

  datatype Doc = NodeDoc(node: MemoryNode) | IndexDoc(entries: seq<IndexEntry>)
}
