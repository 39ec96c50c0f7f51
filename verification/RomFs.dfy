/** RomFS lookup: directory and file tables with hash-chain indexes. */
module RomFs {

  type Offset = bv32
  type Name = seq<bv16>

  const NONE: Offset := 0xFFFF_FFFF
  const ROOT: Offset := 0

  /** A directory or file entry, with the links that matter for lookup; the child links are
      used in directories only. */
  datatype Entry = Entry(parent: Offset, sibling: Offset, nextHash: Offset, name: Name,
                         childDir: Offset, childFile: Offset)

  type Table = map<Offset, Entry>

  /** A table of entries and the heads of its hash chains. */
  datatype Index = Index(table: Table, heads: seq<Offset>)

  // The hash of a name below a parent.

  function Rotated(hash: bv32, unit: bv16): bv32 {
    ((hash >> 5) | (hash << 27)) ^ (unit as bv32)
  }

  function HashFrom(hash: bv32, name: Name): bv32 {
    if name == [] then hash else Rotated(HashFrom(hash, name[..|name| - 1]), name[|name| - 1])
  }

  function Bucket(parent: Offset, name: Name, total: nat): (b: nat)
    requires total > 0
    ensures b < total
  {
    (HashFrom(parent ^ 123456789, name) as nat) % total
  }

  method CalcHash(parent: Offset, name: Name, total: nat) returns (bucket: nat)
    requires total > 0
    ensures bucket == Bucket(parent, name, total)
  {
    var hash := parent ^ 123456789;
    for i := 0 to |name|
      invariant hash == HashFrom(parent ^ 123456789, name[..i])
    {
      assert name[..i + 1][..i] == name[..i];
      hash := (hash >> 5) | (hash << 27);
      hash := hash ^ (name[i] as bv32);
    }
    assert name[..|name|] == name;
    bucket := (hash as nat) % total;
  }

  // Linked lists of entries inside a table.

  datatype Link = Sibling | NextHash

  function Follow(e: Entry, link: Link): Offset {
    if link.Sibling? then e.sibling else e.nextHash
  }

  /** The offsets met by following a link from `start` until NONE. Only a list that does not
      run in a circle has one. */
  predicate IsChain(table: Table, start: Offset, link: Link, chain: seq<Offset>)
    decreases |chain|
  {
    if chain == [] then start == NONE
    else
      && start != NONE && chain[0] == start && start in table
      && IsChain(table, Follow(table[start], link), link, chain[1..])
  }

  lemma {:induction false} ChainAt(table: Table, start: Offset, link: Link, chain: seq<Offset>, k: nat)
    requires IsChain(table, start, link, chain) && k < |chain|
    ensures chain[k] in table && chain[k] != NONE
    ensures Follow(table[chain[k]], link) == if k + 1 < |chain| then chain[k + 1] else NONE
    decreases |chain|
  {
    if k > 0 {
      ChainAt(table, Follow(table[start], link), link, chain[1..], k - 1);
    }
  }

  lemma NoneNotListed(table: Table, start: Offset, link: Link, chain: seq<Offset>)
    requires IsChain(table, start, link, chain)
    ensures NONE !in chain
  {
    forall k | 0 <= k < |chain|
      ensures chain[k] != NONE
    {
      ChainAt(table, start, link, chain, k);
    }
  }

  /** The lists a well-formed table holds: one hash chain for each bucket, one list of children
      for each directory. */
  datatype Layout = Layout(chains: seq<seq<Offset>>, children: map<Offset, seq<Offset>>)

  predicate Matches(table: Table, off: Offset, p: Offset, name: Name) {
    off in table && table[off].parent == p && table[off].name == name
  }

  /** The root directory is its own parent, but nobody's child. */
  predicate IsChild(table: Table, p: Offset, off: Offset, ofFiles: bool) {
    off in table && table[off].parent == p && (ofFiles || off != ROOT)
  }

  /** The entry has a directory for a parent and is on the chain of its own hash. */
  predicate Filed(ix: Index, dirs: Table, layout: Layout, off: Offset)
    requires |ix.heads| == |layout.chains| > 0
  {
    off in ix.table ==>
      && ix.table[off].parent in dirs
      && off in layout.chains[Bucket(ix.table[off].parent, ix.table[off].name, |ix.heads|)]
  }

  /** p's child list ends, and holds exactly the entries that name p as their parent. */
  ghost predicate ListsChildren(table: Table, dir: Entry, p: Offset, ofFiles: bool, list: seq<Offset>) {
    && IsChain(table, if ofFiles then dir.childFile else dir.childDir, Sibling, list)
    && forall off :: off in list <==> IsChild(table, p, off, ofFiles)
  }

  /** The hash index agrees with the directory tree: hash chains and child lists end, every
      entry is on the chain of its own hash and has a parent that lists it, and siblings have
      different names. */
  ghost predicate WellFormed(ix: Index, dirs: Table, ofFiles: bool, layout: Layout) {
    && |ix.heads| == |layout.chains| > 0
    && (forall b :: 0 <= b < |ix.heads| ==> IsChain(ix.table, ix.heads[b], NextHash, layout.chains[b]))
    && (forall off :: Filed(ix, dirs, layout, off))
    && layout.children.Keys == dirs.Keys
    && (forall p :: p in dirs ==> ListsChildren(ix.table, dirs[p], p, ofFiles, layout.children[p]))
    && (forall p, x, y, name {:trigger Matches(ix.table, x, p, name), Matches(ix.table, y, p, name)} ::
          Matches(ix.table, x, p, name) && Matches(ix.table, y, p, name) ==> x == y || name == [])
  }

  /** A linear scan of a list of entries for a name. */
  function Scan(table: Table, offs: seq<Offset>, name: Name): Offset {
    if offs == [] then NONE
    else if offs[0] in table && table[offs[0]].name == name then offs[0]
    else Scan(table, offs[1..], name)
  }

  lemma {:induction false} ScanFinds(table: Table, offs: seq<Offset>, name: Name)
    requires NONE !in offs
    ensures var r := Scan(table, offs, name);
            if r == NONE then forall off :: off in offs && off in table ==> table[off].name != name
            else r in offs && r in table && table[r].name == name
  {
    if offs != [] {
      assert offs == [offs[0]] + offs[1..];
      ScanFinds(table, offs[1..], name);
    }
  }

  /** The child of p with this name, by scanning p's child list; NONE when there is none. */
  function ChildOf(table: Table, layout: Layout, p: Offset, name: Name): Offset {
    if p in layout.children then Scan(table, layout.children[p], name) else NONE
  }

  /** In a well-formed table the scan finds exactly the one matching entry. */
  lemma ChildMatches(ix: Index, dirs: Table, ofFiles: bool, layout: Layout, p: Offset, name: Name, off: Offset)
    requires WellFormed(ix, dirs, ofFiles, layout) && p in dirs && name != []
    requires !ofFiles && ROOT in ix.table ==> ix.table[ROOT].name == []
    ensures (off != NONE && ChildOf(ix.table, layout, p, name) == off) <==> Matches(ix.table, off, p, name)
  {
    var list := layout.children[p];
    assert ListsChildren(ix.table, dirs[p], p, ofFiles, list);
    NoneNotListed(ix.table, if ofFiles then dirs[p].childFile else dirs[p].childDir, Sibling, list);
    ScanFinds(ix.table, list, name);
    var r := Scan(ix.table, list, name);
    if r != NONE {
      assert IsChild(ix.table, p, r, ofFiles);
      assert Matches(ix.table, r, p, name);
    }
    if Matches(ix.table, off, p, name) {
      assert IsChild(ix.table, p, off, ofFiles);
    }
  }

  /** Follows one hash chain for an entry with this parent and name. */
  method FollowChain(table: Table, head: Offset, p: Offset, name: Name, ghost chain: seq<Offset>)
    returns (found: Offset)
    requires IsChain(table, head, NextHash, chain)
    ensures found != NONE ==> Matches(table, found, p, name)
    ensures found == NONE ==> forall off :: off in chain ==> !Matches(table, off, p, name)
  {
    var curOff := head;
    ghost var k := 0;
    NoneNotListed(table, head, NextHash, chain);
    while curOff != NONE
      invariant k <= |chain| && curOff == if k < |chain| then chain[k] else NONE
      invariant forall i :: 0 <= i < k ==> !Matches(table, chain[i], p, name)
      decreases |chain| - k
    {
      ChainAt(table, head, NextHash, chain, k);
      if table[curOff].parent == p && table[curOff].name == name {
        return curOff;
      }
      curOff := table[curOff].nextHash;
      k := k + 1;
    }
    return NONE;
  }

  /** searchForDir and searchForFile: hash the name and follow that one chain. The result is
      what a scan of the parent's whole child list gives. */
  method Search(ix: Index, p: Offset, name: Name, ghost dirs: Table, ghost ofFiles: bool, ghost layout: Layout)
    returns (found: Offset)
    requires WellFormed(ix, dirs, ofFiles, layout) && p in dirs && name != []
    requires !ofFiles && ROOT in ix.table ==> ix.table[ROOT].name == []
    ensures found == ChildOf(ix.table, layout, p, name)
    ensures found != NONE ==> Matches(ix.table, found, p, name)
  {
    var hash := CalcHash(p, name, |ix.heads|);
    found := FollowChain(ix.table, ix.heads[hash], p, name, layout.chains[hash]);
    ghost var child := ChildOf(ix.table, layout, p, name);
    ChildMatches(ix, dirs, ofFiles, layout, p, name, found);
    ChildMatches(ix, dirs, ofFiles, layout, p, name, child);
    assert Filed(ix, dirs, layout, child);
  }
}
