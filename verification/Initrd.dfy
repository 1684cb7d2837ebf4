/** cpiofs_mount on the heap, and the life of the initial ramdisk: an archive is mounted,
    a file in it is located by name and read. */
module Initrd {
  import opened Sequences
  import opened Bytes
  import opened FsTree
  import opened Cpio
  import Tmpfs

  /** `nodes` are file nodes for `found`, in archive order, none of them opened yet. */
  ghost predicate Stand(nodes: seq<FsNode>, found: seq<Found>)
    reads nodes`firstChild, (set n | n in nodes && n.device != null :: n.device)`pos
  {
    && |nodes| == |found| && Distinct(nodes)
    && forall i {:trigger nodes[i]} :: 0 <= i < |nodes| ==>
         && nodes[i].name == found[i].name && nodes[i].firstChild == null
         && nodes[i].device != null && nodes[i].device.pos == 0
         && nodes[i].device.data == found[i].data && nodes[i].device.length == found[i].length
  }

  /** Files already found, followed by what the rest of the walk finds. */
  function Glue(found: seq<Found>, m: Mounted): Mounted {
    match m case Bad => Bad case Files(fs) => Files(found + fs)
  }

  /** The outcome of one cpiofs_unpack_file: NULL, &CpioEOF, or the next header. */
  datatype Next = Null | Eof | Header(off: nat)

  method LinkFile(parent: FsNode, node: FsNode, ghost nodes: seq<FsNode>)
    requires Chain(parent.firstChild, LinkedAll(nodes)) && node !in nodes && node.nextSibling == null
    modifies parent`firstChild, nodes`nextSibling, node`nextSibling
    ensures Chain(parent.firstChild, LinkedAll(nodes + [node]))
  {
    LinkedAllIn(nodes);
    LinkChild(parent, node, LinkedAll(nodes));
    assert (nodes + [node])[..|nodes|] == nodes;
  }

  /** One file more, on values. */
  lemma WalkOne(image: seq<Byte>, off: nat, found: seq<Found>)
    requires Walkable(image, off) && MagicOk(image, off) && NameAt(image, off) != TRAILER
    ensures LengthAt(image, off) >= 0 && off < NextAt(image, off) && Walkable(image, NextAt(image, off))
    ensures Glue(found, Walked(image, off)) ==
            Glue(found + [Found(NameAt(image, off), DataAt(image, off), LengthAt(image, off))],
                 Walked(image, NextAt(image, off)))
  {
    StepAdvances(image, off);
    var f, rest := Found(NameAt(image, off), DataAt(image, off), LengthAt(image, off)), Walked(image, NextAt(image, off));
    assert Walked(image, off) == Prepend(f, rest);
    if rest.Files? { assert found + ([f] + rest.files) == found + [f] + rest.files; }
  }

  lemma StandMore(nodes: seq<FsNode>, found: seq<Found>, node: FsNode, f: Found)
    requires Stand(nodes, found) && node !in nodes
    requires node.name == f.name && node.firstChild == null
    requires node.device != null && node.device.pos == 0
    requires node.device.data == f.data && node.device.length == f.length
    ensures Stand(nodes + [node], found + [f])
  {
    DistinctConcat(nodes, [node]);
  }

  /** cpiofs_unpack_file, on a directory that already holds `nodes`. */
  method UnpackFile(parent: FsNode, image: seq<Byte>, off: nat, ghost nodes: seq<FsNode>, ghost found: seq<Found>)
    returns (next: Next, ghost nodes': seq<FsNode>, ghost found': seq<Found>)
    requires Walkable(image, off)
    requires Chain(parent.firstChild, LinkedAll(nodes)) && Stand(nodes, found) && parent !in nodes
    modifies parent`firstChild, nodes`nextSibling
    ensures match next
            case Null => Walked(image, off) == Bad
            case Eof => Walked(image, off) == Files([]) && nodes' == nodes && found' == found
            case Header(next) =>
              && off < next && Walkable(image, next)
              && |nodes'| == |nodes| + 1 && nodes' == nodes + [nodes'[|nodes|]] && fresh(nodes'[|nodes|])
              && nodes'[|nodes|].device != null && fresh(nodes'[|nodes|].device)
              && Glue(found, Walked(image, off)) == Glue(found', Walked(image, next))
    ensures !next.Null? ==>
              Chain(parent.firstChild, LinkedAll(nodes')) && Stand(nodes', found') && parent !in nodes'
  {
    nodes', found' := nodes, found;
    if !MagicOk(image, off) {
      return Null, nodes', found';
    }
    var name := NameAt(image, off);
    if name == TRAILER {
      return Eof, nodes', found';
    }
    WalkOne(image, off, found);
    LinkedAllIn(nodes);
    var data := DataAt(image, off);
    var file := new FileDevice(data, LengthAt(image, off));
    var node := new FsNode(name, file);
    LinkFile(parent, node, nodes);
    nodes' := nodes + [node];
    found' := found + [Found(name, data, file.length)];
    StandMore(nodes, found, node, Found(name, data, file.length));
    return Header(NextAt(image, off)), nodes', found';
  }

  /** cpiofs_mount. */
  method Mount(name: Name, image: seq<Byte>) returns (root: FsNode?, ghost nodes: seq<FsNode>)
    requires Walkable(image, 0)
    ensures root == null <==> Walked(image, 0).Bad?
    ensures root != null ==>
              && root.name == name && fresh(root) && root !in nodes
              && (forall i :: 0 <= i < |nodes| ==> fresh(nodes[i]))
              && (forall i :: 0 <= i < |nodes| && nodes[i].device != null ==> fresh(nodes[i].device))
              && Stand(nodes, Walked(image, 0).files) && Chain(root.firstChild, LinkedAll(nodes))
  {
    var dir := new FsNode(name, null);
    nodes := [];
    ghost var found := [];
    var off := 0;
    while true
      invariant Walkable(image, off) && Walked(image, 0) == Glue(found, Walked(image, off))
      invariant Chain(dir.firstChild, LinkedAll(nodes)) && Stand(nodes, found) && dir !in nodes
      invariant forall i :: 0 <= i < |nodes| ==> fresh(nodes[i])
      invariant forall i :: 0 <= i < |nodes| && nodes[i].device != null ==> fresh(nodes[i].device)
      decreases |image| - off
    {
      var next;
      next, nodes, found := UnpackFile(dir, image, off, nodes, found);
      match next
      case Null => return null, nodes;
      case Eof => return dir, nodes;
      case Header(o) => off := o;
    }
  }

  /** The mounted directory as a tree of two levels. */
  ghost function Kids(root: FsNode, nodes: seq<FsNode>): (kids: map<FsNode, seq<FsNode>>)
    ensures root in kids && kids[root] == LinkedAll(nodes)
    ensures forall n :: n in kids ==> n == root || n in nodes
    ensures forall n :: n in nodes ==> n in kids && (n != root ==> kids[n] == [])
  {
    (map n | n in nodes :: [])[root := LinkedAll(nodes)]
  }

  lemma KidsHold(root: FsNode, nodes: seq<FsNode>)
    requires root !in nodes && Chain(root.firstChild, LinkedAll(nodes))
    requires forall i :: 0 <= i < |nodes| ==> nodes[i].firstChild == null
    ensures Holds(Kids(root, nodes))
  {
    var kids := Kids(root, nodes);
    LinkedAllIn(nodes);
    forall n, i | n in kids && 0 <= i < |kids[n]| ensures kids[n][i] in kids {
      assert n == root;
    }
    forall n | n in kids ensures Chain(n.firstChild, kids[n]) {
      if n != root {
        assert kids[n] == [];
      }
    }
  }

  /** Of several found files with different names, a slash-free path picks the one so named. */
  lemma WalkFinds(root: FsNode, nodes: seq<FsNode>, path: Name)
    requires Closed(Kids(root, nodes)) && DistinctNames(nodes)
    requires |path| > 0 && forall i :: 0 <= i < |path| ==> path[i] != SLASH
    ensures Components(path) == [path]
    ensures Walk(Kids(root, nodes), root, Components(path)) == Lookup(nodes, path)
  {
    ComponentsOne(path);
    LookupAll(nodes, path);
  }

  lemma SliceOfSlice(s: seq<Byte>, a: nat, n: nat, c: nat, d: nat)
    requires c <= d <= n && a + n <= |s|
    ensures s[a..a + n][c..d] == s[a + c..a + d]
  {
    var t, u := s[a..a + n][c..d], s[a + c..a + d];
    forall k | 0 <= k < d - c ensures t[k] == u[k] {
      assert t[k] == s[a..a + n][c + k] == s[a + c + k];
    }
  }

  /** cpiofs_read_file, for sizes within size_t. */
  method ReadFile(file: FileDevice, image: seq<Byte>, nbyte: nat) returns (buf: seq<Byte>)
    requires 0 <= file.pos <= file.length && file.data + file.length <= |image|
    requires file.pos + nbyte < 0x1_0000_0000
    modifies file`pos
    ensures var f := Tmpfs.File(image[file.data..file.data + file.length], old(file.pos));
            buf == Tmpfs.ReadBytes(f, nbyte) && file.pos == Tmpfs.AfterRead(f, nbyte).pos
  {
    var n := nbyte;
    if file.pos + n > file.length {
      n := file.length - file.pos;
    }
    buf := image[file.data + file.pos..file.data + file.pos + n];
    SliceOfSlice(image, file.data, file.length, file.pos, file.pos + n);
    file.pos := file.pos + n;
  }

  predicate DifferentNames(files: seq<Found>) {
    forall i, j :: 0 <= i < j < |files| ==> files[i].name != files[j].name
  }

  lemma LookupByName(nodes: seq<FsNode>, files: seq<Found>, path: Name)
    requires |nodes| == |files| && forall i :: 0 <= i < |files| ==> nodes[i].name == files[i].name
    requires DifferentNames(files)
    ensures DistinctNames(nodes)
    ensures Lookup(nodes, path) == null <==> forall i :: 0 <= i < |files| ==> files[i].name != path
    ensures forall i :: 0 <= i < |files| && files[i].name == path ==> Lookup(nodes, path) == nodes[i]
  {
    var r := Lookup(nodes, path);
    if r != null {
      var k :| 0 <= k < |nodes| && nodes[k] == r;
    }
  }

  /** Locates a slash-free path in a mounted directory: the device of the file so named. */
  method LocateFile(root: FsNode, path: Name, ghost nodes: seq<FsNode>, ghost files: seq<Found>)
    returns (device: FileDevice?)
    requires Stand(nodes, files) && DifferentNames(files)
    requires root !in nodes && Chain(root.firstChild, LinkedAll(nodes))
    requires |path| > 0 && forall i :: 0 <= i < |path| ==> path[i] != SLASH
    ensures device == null <==> forall i :: 0 <= i < |files| ==> files[i].name != path
    ensures forall i :: 0 <= i < |files| && files[i].name == path ==> device == nodes[i].device
  {
    KidsHold(root, nodes);
    LookupByName(nodes, files, path);
    WalkFinds(root, nodes, path);
    var node := Locate(root, path, Kids(root, nodes));
    if node == null {
      return null;
    }
    ghost var k :| 0 <= k < |nodes| && nodes[k] == node;
    return node.device;
  }

  /** Reads a file that has just been opened. */
  method ReadWhole(file: FileDevice, image: seq<Byte>) returns (content: seq<Byte>)
    requires file.pos == 0 <= file.length < 0x8000_0000 && file.data + file.length <= |image|
    modifies file`pos
    ensures content == image[file.data..file.data + file.length]
  {
    content := ReadFile(file, image, file.length);
  }

  /** Mounts an archive in which `files` are found, locates one by name and reads it. */
  method MountAndRead(image: seq<Byte>, path: Name, ghost files: seq<Found>) returns (found: bool, content: seq<Byte>)
    requires Walkable(image, 0) && Walked(image, 0) == Files(files) && DifferentNames(files)
    requires |path| > 0 && forall i :: 0 <= i < |path| ==> path[i] != SLASH
    requires forall i :: 0 <= i < |files| ==>
               files[i].length < 0x8000_0000 && files[i].data + files[i].length <= |image|
    ensures found <==> exists i :: 0 <= i < |files| && files[i].name == path
    ensures forall i :: 0 <= i < |files| && files[i].name == path ==>
              content == image[files[i].data..files[i].data + files[i].length]
  {
    var root, nodes := Mount([0x69, 0x6e, 0x69, 0x74, 0x72, 0x64], image);
    var device := LocateFile(root, path, nodes, files);
    if device == null {
      return false, [];
    }
    ghost var k :| 0 <= k < |files| && files[k].name == path;
    assert device == nodes[k].device;
    content := ReadWhole(device, image);
    return true, content;
  }

  ghost predicate DifferentEntries(es: seq<Entry>) {
    forall i, j :: 0 <= i < j < |es| ==> es[i].name != es[j].name
  }

  /** What the walk over an encoded archive finds, as MountAndRead needs it. */
  lemma EncodedFiles(image: seq<Byte>, es: seq<Entry>) returns (files: seq<Found>)
    requires AllGood(es) && DifferentEntries(es) && image == Encode(es)
    ensures Walkable(image, 0) && Walked(image, 0) == Files(files) && DifferentNames(files)
    ensures Matches(image, files, es)
    ensures forall i :: 0 <= i < |files| ==>
              files[i].length < 0x8000_0000 && files[i].data + files[i].length <= |image|
  {
    assert image[0..] == image;
    EncodedWalk(image, 0, es);
    files := Walked(image, 0).files;
    MatchesNames(image, files, es);
  }

  lemma MatchesNames(image: seq<Byte>, files: seq<Found>, es: seq<Entry>)
    requires Matches(image, files, es) && AllGood(es) && DifferentEntries(es)
    ensures DifferentNames(files)
    ensures forall i :: 0 <= i < |files| ==> files[i].length < 0x8000_0000
  {
    forall i | 0 <= i < |files| ensures files[i].length < 0x8000_0000 {
      assert GoodEntry(es[i]);
    }
  }

  /** The round trip: encode entries with different names, mount the archive, locate a
      slash-free name and read the file from its start.  Exactly the entry's bytes come
      back, and a name that no entry has is not found. */
  method ReadByName(image: seq<Byte>, ghost es: seq<Entry>, path: Name) returns (found: bool, content: seq<Byte>)
    requires AllGood(es) && DifferentEntries(es) && image == Encode(es)
    requires |path| > 0 && forall i :: 0 <= i < |path| ==> path[i] != SLASH
    ensures found <==> exists i :: 0 <= i < |es| && es[i].name == path
    ensures forall i :: 0 <= i < |es| && es[i].name == path ==> content == es[i].content
  {
    ghost var files := EncodedFiles(image, es);
    found, content := MountAndRead(image, path, files);
  }
}
