/**
 The store's directory as a value, and the system calls that change it.

 A crash stops the process between two calls or inside one. Bytes already handed to the operating system survive.
 */
module FileSystem {
  import opened Wrappers
  import opened Wal
  import opened Documents
  import opened Encrypt

  /** The plaintext index.json of earlier versions. */
  datatype Legacy = Listed(entries: seq<IndexEntry>) | Garbage

  datatype Disk = Disk(
    wal: Option<string>,
    nodes: map<NodeId, Blob>,
    index: Option<Blob>,
    tmp: Option<Blob>,
    legacy: Option<Legacy>)

  datatype Syscall =
    | AppendWal(text: string)
    | WriteNode(id: NodeId, data: Blob)
    | RemoveNode(id: NodeId)
    | WriteTmp(data: Blob)
    | RenameTmp
    | RemoveWal
    | RemoveLegacy

  function Apply(d: Disk, c: Syscall): Disk {
    match c
    case AppendWal(text) => d.(wal := Some(d.wal.GetOr("") + text))
    case WriteNode(id, data) => d.(nodes := d.nodes[id := data])
    case RemoveNode(id) => d.(nodes := d.nodes - {id})
    case WriteTmp(data) => d.(tmp := Some(data))
    case RenameTmp => if d.tmp.Some? then d.(index := d.tmp, tmp := None) else d
    case RemoveWal => d.(wal := None)
    case RemoveLegacy => d.(legacy := None)
  }

  function Take<T>(s: seq<T>, k: nat): (r: seq<T>)
    ensures r <= s && (k >= |s| ==> r == s)
  {
    if k <= |s| then s[..k] else s
  }

  /** The call when only its first k bytes or symbols got written; rename and remove are all or nothing. */
  function Cut(c: Syscall, k: nat): Syscall {
    match c
    case AppendWal(text) => AppendWal(Take(text, k))
    case WriteNode(id, data) => WriteNode(id, Take(data, k))
    case WriteTmp(data) => WriteTmp(Take(data, k))
    case _ => c
  }

  function Run(d: Disk, calls: seq<Syscall>): Disk
    decreases |calls|
  {
    if calls == [] then d else Run(Apply(d, calls[0]), calls[1..])
  }

  /** A crash after `done` whole calls, and after part of the next one when `part` says so. */
  datatype CrashPoint = CrashPoint(done: nat, part: Option<nat>)

  function CrashAt(d: Disk, calls: seq<Syscall>, p: CrashPoint): Disk
    decreases |calls|
  {
    if calls == [] then d
    else if p.done > 0 then CrashAt(Apply(d, calls[0]), calls[1..], p.(done := p.done - 1))
    else if p.part.Some? then Apply(d, Cut(calls[0], p.part.value))
    else d
  }

  lemma {:induction false} RunConcat(d: Disk, a: seq<Syscall>, b: seq<Syscall>)
    ensures Run(d, a + b) == Run(Run(d, a), b)
    decreases |a|
  {
    if a == [] {
      assert a + b == b;
    } else {
      assert (a + b)[1..] == a[1..] + b;
      RunConcat(Apply(d, a[0]), a[1..], b);
    }
  }

  /** A crash in a sequence of calls is a crash in its first or in its second half. */
  lemma {:induction false} CrashConcat(d: Disk, a: seq<Syscall>, b: seq<Syscall>, p: CrashPoint)
    ensures CrashAt(d, a + b, p)
         == if p.done < |a| then CrashAt(d, a, p) else CrashAt(Run(d, a), b, p.(done := p.done - |a|))
    decreases |a|
  {
    if a == [] {
      assert a + b == b;
    } else {
      assert (a + b)[1..] == a[1..] + b;
      if p.done > 0 {
        CrashConcat(Apply(d, a[0]), a[1..], b, p.(done := p.done - 1));
      }
    }
  }

  lemma {:induction false} CrashAfterAll(d: Disk, calls: seq<Syscall>, p: CrashPoint)
    requires p.done >= |calls|
    ensures CrashAt(d, calls, p) == Run(d, calls)
    decreases |calls|
  {
    if calls != [] {
      CrashAfterAll(Apply(d, calls[0]), calls[1..], p.(done := p.done - 1));
    }
  }
}
