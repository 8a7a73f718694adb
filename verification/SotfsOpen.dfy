/**
 Open files and unlinking (src/sotfs/rewrite.c): a file stays, with its bytes, for as long as it
 has its name or somebody holds it open.
 */
module SotfsOpen {
  import opened Machine
  import opened SotfsGraph
  import opened Containment

  /** What is done to one file: opened, one of its handles closed, its name removed. */
  datatype Act = Open | Close | Remove

  /** Kept from the acts alone: the handles that are open, and whether the name is there. */
  datatype Record = Record(handles: nat, named: bool)

  /** A file is opened by its name or by duplicating an open handle, and only an open handle is
      closed.  The open count is a byte that saturates; the pool has 128 handles. */
  predicate May(r: Record, a: Act) {
    match a
    case Open => (r.named || r.handles > 0) && r.handles < 255
    case Close => r.handles > 0
    case Remove => true
  }

  function Noted(r: Record, a: Act): (q: Record)
    requires May(r, a)
  {
    match a
    case Open => r.(handles := r.handles + 1)
    case Close => r.(handles := r.handles - 1)
    case Remove => r.(named := false)
  }

  /** The file is `id`, its name `name` in `dir`. */
  function Do(fs: Fs, id: int, dir: int, name: string, a: Act): (g: Fs) {
    match a
    case Open => OpenInode(fs, id)
    case Close => CloseInode(fs, id)
    case Remove => RewriteUnlink(fs, dir, name).1
  }

  predicate Stays(r: Record) {
    r.named || r.handles > 0
  }

  /** Names are unique, and the file's is there or not. */
  ghost predicate NameAs(edges: map<int, Edge>, id: int, dir: int, name: string, named: bool) {
    && (forall j, k :: j in edges && k in edges && j != k ==>
          edges[j].parent != edges[k].parent || edges[j].name != edges[k].name)
    && var k := FindEdge(edges, dir, name);
    if named then k != 0 && edges[k].child == id else k == 0
  }

  /** `fs` is `was` with the file's name, open count and storage as the record says. */
  ghost predicate As(was: Fs, fs: Fs, id: int, dir: int, name: string, r: Record)
    requires id in was.inodes
  {
    && fs.pages == was.pages && fs.used == was.used
    && dir in fs.inodes && fs.inodes[dir].kind == Dir && name != ""
    && NameAs(fs.edges, id, dir, name, r.named)
    && (id in fs.inodes <==> Stays(r))
    && (Stays(r) ==>
          && fs.blocks == was.blocks
          && fs.inodes[id]
             == was.inodes[id].(opens := r.handles, nlink := if r.named then 1 else 0, orphan := !r.named))
    && (!Stays(r) ==> fs.blocks == map k | k in was.blocks && was.blocks[k].file != id :: was.blocks[k])
  }

  lemma RemoveAs(was: Fs, fs: Fs, id: int, dir: int, name: string, r: Record)
    requires id in was.inodes && was.inodes[id].kind == File && As(was, fs, id, dir, name, r)
    ensures As(was, Do(fs, id, dir, name, Remove), id, dir, name, Noted(r, Remove))
  {
    hide FindEdge, NameAs;
    NameGone(fs.edges, id, dir, name, r.named);
  }

  lemma NameGone(edges: map<int, Edge>, id: int, dir: int, name: string, named: bool)
    requires NameAs(edges, id, dir, name, named)
    ensures var k := FindEdge(edges, dir, name);
            if named then k != 0 && edges[k].child == id && NameAs(edges - {k}, id, dir, name, false) else k == 0
  {
    var rest := edges - {FindEdge(edges, dir, name)};
    var k := FindEdge(rest, dir, name);
  }

  lemma ActAs(was: Fs, fs: Fs, id: int, dir: int, name: string, r: Record, a: Act)
    requires id in was.inodes && was.inodes[id].kind == File && As(was, fs, id, dir, name, r) && May(r, a)
    ensures As(was, Do(fs, id, dir, name, a), id, dir, name, Noted(r, a))
  {
    hide NameAs, RewriteUnlink;
    if a.Remove? {
      RemoveAs(was, fs, id, dir, name, r);
    }
  }

  ghost predicate AllMay(r: Record, acts: seq<Act>)
    decreases |acts|
  {
    acts == [] || (May(r, acts[0]) && AllMay(Noted(r, acts[0]), acts[1..]))
  }

  function Done(fs: Fs, id: int, dir: int, name: string, acts: seq<Act>): (g: Fs)
    decreases |acts|
  {
    if acts == [] then fs else Done(Do(fs, id, dir, name, acts[0]), id, dir, name, acts[1..])
  }

  ghost function Written(r: Record, acts: seq<Act>): (q: Record)
    requires AllMay(r, acts)
    decreases |acts|
  {
    if acts == [] then r else Written(Noted(r, acts[0]), acts[1..])
  }

  lemma {:induction false} RunAs(was: Fs, fs: Fs, id: int, dir: int, name: string, r: Record, acts: seq<Act>)
    requires id in was.inodes && was.inodes[id].kind == File && As(was, fs, id, dir, name, r) && AllMay(r, acts)
    ensures As(was, Done(fs, id, dir, name, acts), id, dir, name, Written(r, acts))
    decreases |acts|
  {
    hide As, Do;
    if acts != [] {
      ActAs(was, fs, id, dir, name, r, acts[0]);
      RunAs(was, Do(fs, id, dir, name, acts[0]), id, dir, name, Noted(r, acts[0]), acts[1..]);
    }
  }

  /** In every history of opens, closes and unlinks of a file, with up to 255 handles at once: the
      file is there exactly while it has its name or a handle is open, with the bytes it had, and
      once it has neither its blocks are unmapped. */
  lemma OpenFilesStay(fs: Fs, id: int, dir: int, name: string, acts: seq<Act>)
    requires EdgesOk(fs) && dir in fs.inodes && fs.inodes[dir].kind == Dir && name != ""
    requires var k := FindEdge(fs.edges, dir, name); k != 0 && fs.edges[k].child == id
    requires id in fs.inodes && fs.inodes[id].kind == File && fs.inodes[id].nlink == 1 && !fs.inodes[id].orphan
    requires AllMay(Record(fs.inodes[id].opens, true), acts)
    ensures var r, g := Written(Record(fs.inodes[id].opens, true), acts), Done(fs, id, dir, name, acts);
            && (id in g.inodes <==> r.named || r.handles > 0)
            && (id in g.inodes ==> FileBytes(g, id) == FileBytes(fs, id))
            && (id !in g.inodes ==> forall k :: k in g.blocks ==> g.blocks[k].file != id)
  {
    hide FindEdge, FindBlock, Page, AllMay, Written, Done;
    var r := Record(fs.inodes[id].opens, true);
    RunAs(fs, fs, id, dir, name, r, acts);
    var g := Done(fs, id, dir, name, acts);
    if id in g.inodes {
      SameFileBytes(fs, g, id);
    }
  }

  lemma SameFileBytes(fs: Fs, g: Fs, id: int)
    requires id in fs.inodes && id in g.inodes && g.blocks == fs.blocks && g.pages == fs.pages
    requires g.inodes[id].kind == fs.inodes[id].kind && g.inodes[id].size == fs.inodes[id].size
    ensures FileBytes(g, id) == FileBytes(fs, id)
  {
    hide FindBlock;
    assert forall i: nat :: ByteAt(g, id, i) == ByteAt(fs, id, i);
  }
}
