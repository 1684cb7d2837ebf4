/** The directory tree of kernel/fs/node.c: children in a singly linked list of siblings,
    and path lookup. */
module FsTree {
  import opened Sequences
  import opened Bytes

  /** A C string, without its terminating NUL. */
  type Name = seq<Byte>

  const SLASH: Byte := 0x2f

  /** strcmp(a, b) < 0: bytes compare unsigned, a proper prefix is smaller. */
  predicate Less(a: Name, b: Name) {
    |b| > 0 && (|a| == 0 || a[0] < b[0] || (a[0] == b[0] && Less(a[1..], b[1..])))
  }

  lemma LessTotal(a: Name, b: Name)
    ensures Less(a, b) || a == b || Less(b, a)
    ensures !(Less(a, b) && Less(b, a)) && !Less(a, a)
  {
    if |a| > 0 && |b| > 0 && a[0] == b[0] {
      LessTotal(a[1..], b[1..]);
      assert a == [a[0]] + a[1..] && b == [b[0]] + b[1..];
    }
  }

  lemma LessTrans(a: Name, b: Name, c: Name)
    requires Less(a, b) && Less(b, c)
    ensures Less(a, c)
  {
    if |a| > 0 && a[0] == b[0] == c[0] {
      LessTrans(a[1..], b[1..], c[1..]);
    }
  }

  /** strcmp orders names by the first unsigned byte in which they differ, and a name before
      its extensions. */
  ghost predicate DiffersAt(a: Name, b: Name, k: nat) {
    && k <= |a| && k < |b| && a[..k] == b[..k]
    && (k == |a| || a[k] < b[k])
  }

  lemma {:induction false} LessIs(a: Name, b: Name)
    ensures Less(a, b) <==> exists k: nat :: DiffersAt(a, b, k)
  {
    if |a| > 0 && |b| > 0 && a[0] == b[0] {
      LessIs(a[1..], b[1..]);
      if Less(a, b) {
        var k: nat :| DiffersAt(a[1..], b[1..], k);
        assert a[..k + 1] == [a[0]] + a[1..][..k] && b[..k + 1] == [b[0]] + b[1..][..k];
        assert DiffersAt(a, b, k + 1);
      }
      if k: nat :| DiffersAt(a, b, k) {
        assert k > 0;
        assert a[1..][..k - 1] == a[..k][1..] && b[1..][..k - 1] == b[..k][1..];
        assert DiffersAt(a[1..], b[1..], k - 1);
      }
    } else {
      if Less(a, b) {
        assert DiffersAt(a, b, 0);
      }
      if k: nat :| DiffersAt(a, b, k) && k > 0 {
        assert a[..k][0] == b[..k][0];
      }
    }
  }

  /** A file device of kernel/fs/cpiofs.h: `length` bytes of the image from `data` on. */
  class FileDevice {
    const data: nat
    const length: int
    var pos: int

    constructor (data: nat, length: int)
      ensures this.data == data && this.length == length && pos == 0
    {
      this.data, this.length, this.pos := data, length, 0;
    }
  }

  class FsNode {
    const name: Name
    const device: FileDevice?
    var firstChild: FsNode?
    var nextSibling: FsNode?

    constructor (name: Name, device: FileDevice?)
      ensures this.name == name && this.device == device && firstChild == null && nextSibling == null
    {
      this.name, this.device := name, device;
      firstChild, nextSibling := null, null;
    }
  }

  // ---- a directory as the sequence of its children

  /** Where the scan of fs_link_child stops: at the first child not below `name`. */
  function Stop(s: seq<FsNode>, name: Name): (i: nat)
    ensures i <= |s| && (i < |s| ==> !Less(s[i].name, name))
    ensures forall j :: 0 <= j < i ==> Less(s[j].name, name)
  {
    if |s| == 0 || !Less(s[0].name, name) then 0 else 1 + Stop(s[1..], name)
  }

  /** fs_link_child: behind the child at which the scan stops, or in front of all. */
  function Linked(s: seq<FsNode>, c: FsNode): seq<FsNode> {
    var i := Stop(s, c.name);
    if i < |s| then s[..i + 1] + [c] + s[i + 1..] else [c] + s
  }

  /** The first child with a given name. */
  function Lookup(s: seq<FsNode>, name: Name): (r: FsNode?)
    ensures r != null ==> r in s && r.name == name
    ensures r == null ==> forall i :: 0 <= i < |s| ==> s[i].name != name
  {
    if |s| == 0 then null else if s[0].name == name then s[0] else Lookup(s[1..], name)
  }

  /** No name is greater than that of the first child. */
  ghost predicate HeadGreatest(s: seq<FsNode>) {
    forall i :: 0 < i < |s| ==> !Less(s[0].name, s[i].name)
  }

  /** So the scan stops at the first child or runs off the end ... */
  lemma StopAtEnds(s: seq<FsNode>, name: Name)
    requires HeadGreatest(s) && |s| > 0
    ensures Stop(s, name) == if Less(s[0].name, name) then |s| else 0
  {
    if Less(s[0].name, name) && Stop(s, name) < |s| {
      var i := Stop(s, name);
      LessTotal(s[i].name, name);
      LessTotal(s[0].name, s[i].name);
      if Less(s[i].name, s[0].name) {
        LessTrans(s[i].name, s[0].name, name);
      } else if Less(name, s[i].name) {
        LessTrans(s[0].name, name, s[i].name);
      }
    }
  }

  lemma LinkedShape(s: seq<FsNode>, c: FsNode)
    requires HeadGreatest(s)
    ensures Linked(s, c) ==
            if |s| == 0 || Less(s[0].name, c.name) then [c] + s else [s[0], c] + s[1..]
  {
    if |s| > 0 {
      StopAtEnds(s, c.name);
    }
  }

  /** ... and the greatest name stays in front. */
  lemma LinkedHead(s: seq<FsNode>, c: FsNode)
    requires HeadGreatest(s)
    ensures HeadGreatest(Linked(s, c))
  {
    LinkedShape(s, c);
    var t := Linked(s, c);
    forall i | 0 < i < |t| ensures !Less(t[0].name, t[i].name) {
      if |s| > 0 && Less(s[0].name, c.name) {
        LessTotal(s[0].name, c.name);
        assert t[i] == s[i - 1];
        if i > 1 && Less(c.name, s[i - 1].name) {
          LessTrans(s[0].name, c.name, s[i - 1].name);
        }
      } else if i > 1 {
        assert t[i] == s[i - 1];
      }
    }
  }

  lemma LookupFront(c: FsNode, s: seq<FsNode>, name: Name)
    ensures Lookup([c] + s, name) == if c.name == name then c else Lookup(s, name)
  {
    assert ([c] + s)[1..] == s;
  }

  lemma LookupSecond(s: seq<FsNode>, c: FsNode, name: Name)
    requires |s| > 0
    ensures Lookup([s[0], c] + s[1..], name) ==
            if s[0].name == name then s[0] else if c.name == name then c else Lookup(s, name)
  {
    LookupFront(c, s[1..], name);
    LookupFront(s[0], [c] + s[1..], name);
    assert [s[0], c] + s[1..] == [s[0]] + ([c] + s[1..]);
  }

  /** Linking changes the lookup of the child's own name only, and there the new child
      shadows older ones unless the first child bears that name. */
  lemma LookupLinked(s: seq<FsNode>, c: FsNode, name: Name)
    requires HeadGreatest(s)
    ensures Lookup(Linked(s, c), name) ==
            if name != c.name then Lookup(s, name)
            else if |s| > 0 && s[0].name == name then s[0] else c
  {
    LinkedShape(s, c);
    if |s| == 0 || Less(s[0].name, c.name) {
      LookupFront(c, s, name);
      LessTotal(c.name, c.name);
    } else {
      LookupSecond(s, c, name);
    }
  }

  /** A directory into which `cs` were linked one after the other. */
  function LinkedAll(cs: seq<FsNode>): seq<FsNode> {
    if |cs| == 0 then [] else Linked(LinkedAll(cs[..|cs| - 1]), cs[|cs| - 1])
  }

  lemma {:induction false} LinkedAllHead(cs: seq<FsNode>)
    ensures HeadGreatest(LinkedAll(cs))
  {
    if |cs| > 0 {
      LinkedAllHead(cs[..|cs| - 1]);
      LinkedHead(LinkedAll(cs[..|cs| - 1]), cs[|cs| - 1]);
    }
  }

  /** The directory gains exactly the new child. */
  lemma LinkedAdds(s: seq<FsNode>, c: FsNode)
    ensures multiset(Linked(s, c)) == multiset(s) + multiset{c}
  {
    var i := Stop(s, c.name);
    if i < |s| {
      assert s == s[..i + 1] + s[i + 1..];
      assert multiset(s) == multiset(s[..i + 1]) + multiset(s[i + 1..]);
      assert multiset(Linked(s, c)) == multiset(s[..i + 1]) + multiset{c} + multiset(s[i + 1..]);
    }
  }

  lemma {:induction false} LinkedAllMembers(cs: seq<FsNode>)
    ensures multiset(LinkedAll(cs)) == multiset(cs)
  {
    if |cs| > 0 {
      var rest, c := cs[..|cs| - 1], cs[|cs| - 1];
      LinkedAllMembers(rest);
      LinkedAdds(LinkedAll(rest), c);
      MultisetOfLast(cs);
    }
  }

  lemma LinkedAllIn(cs: seq<FsNode>)
    ensures |LinkedAll(cs)| == |cs|
    ensures forall i :: 0 <= i < |LinkedAll(cs)| ==> LinkedAll(cs)[i] in cs
    ensures forall i :: 0 <= i < |cs| ==> cs[i] in LinkedAll(cs)
  {
    LinkedAllMembers(cs);
    MembersOf(LinkedAll(cs), cs);
  }

  lemma LinkedIn(s: seq<FsNode>, c: FsNode, i: nat)
    requires i < |Linked(s, c)|
    ensures Linked(s, c)[i] in s || Linked(s, c)[i] == c
  {
  }

  // ---- when the list of children is sorted

  ghost predicate Descending(s: seq<FsNode>) {
    forall i, j :: 0 <= i < j < |s| ==> !Less(s[i].name, s[j].name)
  }

  ghost predicate Ascending(s: seq<FsNode>) {
    forall i, j :: 0 <= i < j < |s| ==> !Less(s[j].name, s[i].name)
  }

  /** How many children of `s` have names greater than `name`. */
  function GreaterCount(s: seq<FsNode>, name: Name): nat {
    if |s| == 0 then 0 else (if Less(name, s[0].name) then 1 else 0) + GreaterCount(s[1..], name)
  }

  lemma {:induction false} GreaterCountConcat(s: seq<FsNode>, t: seq<FsNode>, name: Name)
    ensures GreaterCount(s + t, name) == GreaterCount(s, name) + GreaterCount(t, name)
  {
    if |s| == 0 {
      assert s + t == t;
    } else {
      GreaterCountConcat(s[1..], t, name);
      assert (s + t)[1..] == s[1..] + t;
    }
  }

  lemma {:induction false} GreaterCountZero(s: seq<FsNode>, name: Name)
    ensures GreaterCount(s, name) == 0 <==> forall i :: 0 <= i < |s| ==> !Less(name, s[i].name)
  {
    if |s| > 0 {
      GreaterCountZero(s[1..], name);
      assert forall i :: 0 < i < |s| ==> s[i] == s[1..][i - 1];
    }
  }

  /** Linking in any order counts the same names. */
  lemma GreaterCountLinked(s: seq<FsNode>, c: FsNode, name: Name)
    ensures GreaterCount(Linked(s, c), name) == GreaterCount(s + [c], name)
  {
    var i := Stop(s, c.name);
    GreaterCountConcat(s, [c], name);
    if i < |s| {
      GreaterCountConcat(s[..i + 1], s[i + 1..], name);
      assert s == s[..i + 1] + s[i + 1..];
      GreaterCountConcat(s[..i + 1] + [c], s[i + 1..], name);
      GreaterCountConcat(s[..i + 1], [c], name);
    } else {
      GreaterCountConcat([c], s, name);
    }
  }

  lemma {:induction false} GreaterCountAll(cs: seq<FsNode>, name: Name)
    ensures GreaterCount(LinkedAll(cs), name) == GreaterCount(cs, name)
  {
    if |cs| > 0 {
      var rest, c := cs[..|cs| - 1], cs[|cs| - 1];
      GreaterCountAll(rest, name);
      GreaterCountLinked(LinkedAll(rest), c, name);
      GreaterCountConcat(LinkedAll(rest), [c], name);
      GreaterCountConcat(rest, [c], name);
      assert cs == rest + [c];
    }
  }

  lemma DescendingFront(c: FsNode, s: seq<FsNode>)
    ensures Descending([c] + s) <==> Descending(s) && GreaterCount(s, c.name) == 0
  {
    var t := [c] + s;
    GreaterCountZero(s, c.name);
    if Descending(t) {
      forall i, j | 0 <= i < j < |s| ensures !Less(s[i].name, s[j].name) {
        assert s[i] == t[i + 1] && s[j] == t[j + 1];
      }
      forall j | 0 <= j < |s| ensures !Less(c.name, s[j].name) {
        assert c == t[0] && s[j] == t[j + 1];
      }
    }
  }

  /** With the greatest name first, a child in second place keeps the order exactly if only
      the first has a greater name. */
  lemma DescendingSecond(x: FsNode, c: FsNode, s: seq<FsNode>)
    requires HeadGreatest([x] + s) && !Less(x.name, c.name)
    ensures Descending([x] + ([c] + s)) <==> Descending([x] + s) && GreaterCount([x] + s, c.name) <= 1
  {
    GreaterCountZero(s, x.name);
    GreaterCountZero(s, c.name);
    GreaterCountConcat([c], s, x.name);
    GreaterCountConcat([x], s, c.name);
    DescendingFront(x, s);
    DescendingFront(c, s);
    DescendingFront(x, [c] + s);
    assert forall i :: 0 <= i < |s| ==> ([x] + s)[i + 1] == s[i];
    LessTotal(x.name, c.name);
  }

  lemma GreatestCount(s: seq<FsNode>, name: Name)
    requires HeadGreatest(s) && (|s| > 0 ==> Less(s[0].name, name))
    ensures GreaterCount(s, name) == 0
  {
    forall i | 0 <= i < |s| ensures !Less(name, s[i].name) {
      if Less(name, s[i].name) {
        LessTrans(s[0].name, name, s[i].name);
        LessTotal(s[0].name, s[0].name);
      }
    }
    GreaterCountZero(s, name);
  }

  lemma DescendingLinked(s: seq<FsNode>, c: FsNode)
    requires HeadGreatest(s)
    ensures Descending(Linked(s, c)) <==> Descending(s) && GreaterCount(s, c.name) <= 1
  {
    LinkedShape(s, c);
    if |s| > 0 && !Less(s[0].name, c.name) {
      assert s == [s[0]] + s[1..];
      assert Linked(s, c) == [s[0]] + ([c] + s[1..]);
      DescendingSecond(s[0], c, s[1..]);
    } else {
      DescendingFront(c, s);
      GreatestCount(s, c.name);
    }
  }

  /** The list is in descending order if and only if each child, when it was linked, found
      at most one greater name. */
  lemma {:induction false} DescendingIff(cs: seq<FsNode>)
    ensures Descending(LinkedAll(cs)) <==> forall k :: 0 <= k < |cs| ==> GreaterCount(cs[..k], cs[k].name) <= 1
  {
    if |cs| > 0 {
      var rest, c := cs[..|cs| - 1], cs[|cs| - 1];
      DescendingIff(rest);
      LinkedAllHead(rest);
      DescendingLinked(LinkedAll(rest), c);
      GreaterCountAll(rest, c.name);
      assert forall k :: 0 <= k < |rest| ==> cs[k] == rest[k] && cs[..k] == rest[..k];
    }
  }

  ghost predicate SameNames(s: seq<FsNode>) {
    forall i, j :: 0 <= i < j < |s| ==> s[i].name == s[j].name
  }

  lemma AscendingSame(s: seq<FsNode>)
    requires HeadGreatest(s)
    ensures Ascending(s) <==> SameNames(s)
  {
    forall i | 0 < i < |s| && Ascending(s) ensures s[0].name == s[i].name {
      LessTotal(s[0].name, s[i].name);
    }
    if SameNames(s) {
      forall i, j | 0 <= i < j < |s| ensures !Less(s[j].name, s[i].name) {
        LessTotal(s[i].name, s[i].name);
      }
    }
  }

  lemma SameNamesMembers(s: seq<FsNode>, t: seq<FsNode>)
    requires multiset(s) == multiset(t) && SameNames(s)
    ensures SameNames(t)
  {
    forall i, j | 0 <= i < j < |t| ensures t[i].name == t[j].name {
      assert t[i] in multiset(s) && t[j] in multiset(s);
      assert t[i] in s && t[j] in s;
    }
  }

  /** It is in ascending order, which the scan suggests, only if all names are the same. */
  lemma AscendingIff(cs: seq<FsNode>)
    ensures Ascending(LinkedAll(cs)) <==> SameNames(cs)
  {
    LinkedAllHead(cs);
    AscendingSame(LinkedAll(cs));
    LinkedAllMembers(cs);
    if SameNames(cs) {
      SameNamesMembers(cs, LinkedAll(cs));
    }
    if SameNames(LinkedAll(cs)) {
      SameNamesMembers(LinkedAll(cs), cs);
    }
  }

  /** Linking c, b and a gives the order c, a, b. */
  lemma Unsorted(a: FsNode, b: FsNode, c: FsNode)
    requires a.name == [97] && b.name == [98] && c.name == [99]
    ensures LinkedAll([c, b, a]) == [c, a, b]
    ensures !Descending([c, a, b]) && !Ascending([c, a, b])
  {
    assert [c, b, a][..2] == [c, b] && [c, b][..1] == [c] && [c][..0] == [];
    assert LinkedAll([]) == [] && LinkedAll([c]) == [c];
    LinkedShape([c], b);
    LinkedShape([c, b], a);
    var s := [c, a, b];
    assert Less(s[1].name, s[2].name) && Less(s[1].name, s[0].name);
  }

  predicate DistinctNames(cs: seq<FsNode>) {
    forall i, j :: 0 <= i < j < |cs| ==> cs[i].name != cs[j].name
  }

  /** With different names every child is found, and nothing else is. */
  lemma {:induction false} LookupAll(cs: seq<FsNode>, name: Name)
    requires DistinctNames(cs)
    ensures Lookup(LinkedAll(cs), name) == Lookup(cs, name)
  {
    if |cs| > 0 {
      var rest, c := cs[..|cs| - 1], cs[|cs| - 1];
      LookupAll(rest, name);
      LinkedAllHead(rest);
      if name == c.name {
        LookupNone(rest, name);
      }
      LookupBoth(LinkedAll(rest), rest, c, name);
      assert cs == rest + [c];
    }
  }

  /** A new name is found in the linked list exactly when it is found in the plain one. */
  lemma LookupBoth(s: seq<FsNode>, rest: seq<FsNode>, c: FsNode, name: Name)
    requires HeadGreatest(s) && Lookup(s, name) == Lookup(rest, name)
    requires name == c.name ==> Lookup(rest, name) == null
    ensures Lookup(Linked(s, c), name) == Lookup(rest + [c], name)
  {
    LookupLinked(s, c, name);
    LookupConcat(rest, c, name);
  }

  lemma LookupNone(s: seq<FsNode>, name: Name)
    requires forall i :: 0 <= i < |s| ==> s[i].name != name
    ensures Lookup(s, name) == null
  {
  }

  lemma LookupConcat(s: seq<FsNode>, c: FsNode, name: Name)
    ensures Lookup(s + [c], name) ==
            if Lookup(s, name) != null then Lookup(s, name) else if c.name == name then c else null
  {
    if |s| > 0 {
      assert (s + [c])[1..] == s[1..] + [c];
      LookupConcat(s[1..], c, name);
    }
  }

  // ---- paths

  predicate AtBreak(q: seq<Byte>) { |q| == 0 || q[|q| - 1] == SLASH }

  /** A byte begins a component behind a break, and otherwise extends the last one. */
  function Grown(cs: seq<Name>, begins: bool, c: Byte): (r: seq<Name>)
    requires begins || |cs| > 0
    ensures c != SLASH ==> |r| > 0
  {
    if c == SLASH then cs
    else if begins then cs + [[c]]
    else cs[..|cs| - 1] + [cs[|cs| - 1] + [c]]
  }

  lemma GrownConcat(a: seq<Name>, b: seq<Name>, begins: bool, c: Byte)
    requires begins || |b| > 0
    ensures Grown(a + b, begins, c) == a + Grown(b, begins, c)
  {
  }

  /** The maximal runs of bytes other than slashes, in order. */
  function Components(p: seq<Byte>): (cs: seq<Name>)
    ensures !AtBreak(p) ==> |cs| > 0
  {
    if |p| == 0 then []
    else Grown(Components(p[..|p| - 1]), AtBreak(p[..|p| - 1]), p[|p| - 1])
  }

  /** The separator is '/': "/a//b/" has the components "a" and "b". */
  lemma SomeComponents()
    ensures Components([0x2f, 0x61, 0x2f, 0x2f, 0x62, 0x2f]) == [[0x61], [0x62]]
  {
    assert [] + [SLASH] + [0x61] == [0x2f, 0x61];
    ComponentsJoin([], [0x61]);
    assert [0x62] + [SLASH] + [] == [0x62, 0x2f];
    ComponentsJoin([0x62], []);
    assert [] + [SLASH] + [0x62, 0x2f] == [0x2f, 0x62, 0x2f];
    ComponentsJoin([], [0x62, 0x2f]);
    assert [0x2f, 0x61] + [SLASH] + [0x2f, 0x62, 0x2f] == [0x2f, 0x61, 0x2f, 0x2f, 0x62, 0x2f];
    ComponentsJoin([0x2f, 0x61], [0x2f, 0x62, 0x2f]);
  }

  lemma ComponentsAppend(q: seq<Byte>, c: Byte)
    ensures Components(q + [c]) == Grown(Components(q), AtBreak(q), c)
  {
    assert (q + [c])[..|q|] == q;
  }

  /** A slash separates; so leading, trailing and repeated slashes do not matter. */
  lemma {:induction false} ComponentsJoin(p: seq<Byte>, q: seq<Byte>)
    ensures Components(p + [SLASH] + q) == Components(p) + Components(q)
  {
    if |q| == 0 {
      assert p + [SLASH] + q == p + [SLASH];
      ComponentsAppend(p, SLASH);
    } else {
      var q', c := q[..|q| - 1], q[|q| - 1];
      var r := p + [SLASH] + q';
      ComponentsJoin(p, q');
      assert p + [SLASH] + q == r + [c];
      ComponentsAppend(r, c);
      GrownConcat(Components(p), Components(q'), AtBreak(q'), c);
    }
  }

  lemma {:induction false} ComponentsNone(p: seq<Byte>)
    requires forall i :: 0 <= i < |p| ==> p[i] == SLASH
    ensures Components(p) == []
  {
    if |p| > 0 { ComponentsNone(p[..|p| - 1]); }
  }

  lemma {:induction false} ComponentsOne(p: seq<Byte>)
    requires |p| > 0 && forall i :: 0 <= i < |p| ==> p[i] != SLASH
    ensures Components(p) == [p]
  {
    assert p == p[..|p| - 1] + [p[|p| - 1]];
    if |p| > 1 { ComponentsOne(p[..|p| - 1]); }
  }

  /** strtok: where the next token begins, searching from `i` ... */
  function TokenStart(p: seq<Byte>, i: nat): (j: nat)
    requires i <= |p|
    ensures i <= j <= |p| && (forall k :: i <= k < j ==> p[k] == SLASH) && (j < |p| ==> p[j] != SLASH)
    decreases |p| - i
  { if i == |p| || p[i] != SLASH then i else TokenStart(p, i + 1) }

  /** ... and where it ends. */
  function TokenEnd(p: seq<Byte>, j: nat): (k: nat)
    requires j <= |p|
    ensures j <= k <= |p| && (forall i :: j <= i < k ==> p[i] != SLASH) && (k < |p| ==> p[k] == SLASH)
    decreases |p| - j
  { if j == |p| || p[j] == SLASH then j else TokenEnd(p, j + 1) }

  lemma LeadingSlash(q: seq<Byte>)
    requires |q| > 0 && q[0] == SLASH
    ensures Components(q) == Components(q[1..])
  {
    assert q == [] + [SLASH] + q[1..];
    ComponentsJoin([], q[1..]);
  }

  lemma TokenFirst(tok: seq<Byte>, rest: seq<Byte>)
    requires |tok| > 0 && forall i :: 0 <= i < |tok| ==> tok[i] != SLASH
    requires |rest| > 0 ==> rest[0] == SLASH
    ensures Components(tok + rest) == [tok] + Components(rest)
  {
    if |rest| == 0 {
      assert tok + rest == tok;
      ComponentsOne(tok);
    } else {
      assert tok + rest == tok + [SLASH] + rest[1..];
      ComponentsJoin(tok, rest[1..]);
      ComponentsOne(tok);
      LeadingSlash(rest);
    }
  }

  /** Tokens come out as the components do. */
  lemma TokenStep(p: seq<Byte>, i: nat)
    requires i <= |p|
    ensures var j := TokenStart(p, i); var k := TokenEnd(p, j);
            Components(p[i..]) == if j == |p| then [] else [p[j..k]] + Components(p[k..])
  {
    var j := TokenStart(p, i);
    var k := TokenEnd(p, j);
    TokenSkip(p, i, j);
    if j < |p| {
      assert p[j..] == p[j..k] + p[k..];
      TokenFirst(p[j..k], p[k..]);
    }
  }

  lemma TokenSkip(p: seq<Byte>, i: nat, j: nat)
    requires i <= j <= |p| && forall k :: i <= k < j ==> p[k] == SLASH
    ensures Components(p[i..]) == Components(p[j..])
  {
    if i < j {
      assert p[i..] == p[i..j - 1] + [SLASH] + p[j..];
      ComponentsNone(p[i..j - 1]);
      ComponentsJoin(p[i..j - 1], p[j..]);
    }
  }

  // ---- the tree

  /** The children of every node of the tree are nodes of it. */
  ghost predicate Closed(kids: map<FsNode, seq<FsNode>>) {
    forall n, i :: n in kids && 0 <= i < |kids[n]| ==> kids[n][i] in kids
  }

  /** Lookup, component by component. */
  ghost function Walk(kids: map<FsNode, seq<FsNode>>, n: FsNode, comps: seq<Name>): (r: FsNode?)
    requires Closed(kids) && n in kids
    ensures r != null ==> r in kids
  {
    if |comps| == 0 then n
    else
      var c := Lookup(kids[n], comps[0]);
      if c == null then null else Walk(kids, c, comps[1..])
  }

  /** Locating p/q is locating q from where p leads. */
  lemma {:induction false} WalkConcat(kids: map<FsNode, seq<FsNode>>, n: FsNode, a: seq<Name>, b: seq<Name>)
    requires Closed(kids) && n in kids
    ensures Walk(kids, n, a + b) ==
            var m := Walk(kids, n, a); if m == null then null else Walk(kids, m, b)
    decreases |a|
  {
    if |a| == 0 {
      assert a + b == b;
    } else {
      assert (a + b)[1..] == a[1..] + b;
      var c := Lookup(kids[n], a[0]);
      if c != null { WalkConcat(kids, c, a[1..], b); }
    }
  }

  lemma LocateJoined(kids: map<FsNode, seq<FsNode>>, n: FsNode, p: seq<Byte>, q: seq<Byte>)
    requires Closed(kids) && n in kids
    ensures Walk(kids, n, Components(p + [SLASH] + q)) ==
            var m := Walk(kids, n, Components(p)); if m == null then null else Walk(kids, m, Components(q))
  {
    ComponentsJoin(p, q);
    WalkConcat(kids, n, Components(p), Components(q));
  }

  /** The list that starts at `first` is `s`. */
  ghost predicate Chain(first: FsNode?, s: seq<FsNode>)
    reads s`nextSibling
  {
    && Distinct(s)
    && (if |s| == 0 then first == null else first == s[0])
    && (forall i {:trigger s[i].nextSibling} :: 0 <= i < |s| ==>
          s[i].nextSibling == if i + 1 < |s| then s[i + 1] else null)
  }

  /** The links of the tree are those that `kids` says. */
  ghost predicate Holds(kids: map<FsNode, seq<FsNode>>)
    reads kids.Keys`firstChild, kids.Keys`nextSibling
  {
    && Closed(kids)
    && forall n :: n in kids ==> Chain(n.firstChild, kids[n])
  }

  /** fs_child_iter. */
  method ChildIter(parent: FsNode, child: FsNode?) returns (next: FsNode?)
    ensures next == if child == null then parent.firstChild else child.nextSibling
  {
    if child == null {
      next := parent.firstChild;
    } else {
      next := child.nextSibling;
    }
  }

  /** The inner loop of fs_locate. */
  method FindChild(parent: FsNode, tok: Name, ghost s: seq<FsNode>) returns (child: FsNode?)
    requires Chain(parent.firstChild, s)
    ensures child == Lookup(s, tok)
  {
    child := ChildIter(parent, null);
    ghost var m := 0;
    assert s[0..] == s;
    while child != null && tok != child.name
      invariant 0 <= m <= |s| && child == (if m < |s| then s[m] else null)
      invariant Lookup(s, tok) == Lookup(s[m..], tok)
      decreases |s| - m
    {
      assert s[m..][1..] == s[m + 1..];
      child := ChildIter(parent, child);
      m := m + 1;
    }
  }

  /** fs_locate, for a path with at least one component. */
  method Locate(origin: FsNode, path: seq<Byte>, ghost kids: map<FsNode, seq<FsNode>>) returns (r: FsNode?)
    requires Holds(kids) && origin in kids && Components(path) != []
    ensures r == Walk(kids, origin, Components(path))
  {
    var cur := origin;
    var i := 0;
    assert path[0..] == path;
    while TokenStart(path, i) < |path|
      invariant 0 <= i <= |path| && cur in kids
      invariant Walk(kids, cur, Components(path[i..])) == Walk(kids, origin, Components(path))
      decreases |path| - i
    {
      TokenStep(path, i);
      var j := TokenStart(path, i);
      var k := TokenEnd(path, j);
      var child := FindChild(cur, path[j..k], kids[cur]);
      if child == null {
        return null;
      }
      assert Components(path[i..])[1..] == Components(path[k..]);
      cur := child;
      i := k;
    }
    TokenStep(path, i);
    return cur;
  }

  /** The loop of fs_link_child. */
  method ScanSiblings(first: FsNode?, name: Name, ghost s: seq<FsNode>) returns (i: FsNode?)
    requires Chain(first, s)
    ensures var m := Stop(s, name); i == if m < |s| then s[m] else null
  {
    i := first;
    ghost var m := 0;
    while i != null && Less(i.name, name)
      invariant 0 <= m <= |s| && i == (if m < |s| then s[m] else null)
      invariant forall j :: 0 <= j < m ==> Less(s[j].name, name)
      decreases |s| - m
    {
      i := i.nextSibling;
      m := m + 1;
    }
  }

  /** The last branch of fs_link_child: `child` goes behind `i`, at position `m`. */
  method LinkBehind(i: FsNode, child: FsNode, ghost s: seq<FsNode>, ghost m: nat)
    requires Chain(if |s| > 0 then s[0] else null, s) && m < |s| && i == s[m] && child !in s
    requires Distinct(s[..m + 1] + [child] + s[m + 1..])
    modifies i`nextSibling, child`nextSibling
    ensures Chain(s[0], s[..m + 1] + [child] + s[m + 1..])
  {
    var next := i.nextSibling;
    i.nextSibling := child;
    child.nextSibling := next;
    ghost var t := s[..m + 1] + [child] + s[m + 1..];
    forall k | 0 <= k < |t| ensures t[k].nextSibling == if k + 1 < |t| then t[k + 1] else null {
      if k < m {
        assert t[k] == s[k] && s[k].nextSibling == old(s[k].nextSibling) == s[k + 1];
      } else if k > m + 1 {
        assert t[k] == s[k - 1] && s[k - 1].nextSibling == old(s[k - 1].nextSibling);
      }
    }
  }

  /** The branch before it: `child` goes in front. */
  method LinkInFront(parent: FsNode, child: FsNode, ghost s: seq<FsNode>)
    requires Chain(parent.firstChild, s) && child !in s && Distinct([child] + s)
    modifies parent`firstChild, child`nextSibling
    ensures Chain(parent.firstChild, [child] + s)
  {
    var next := parent.firstChild;
    parent.firstChild := child;
    child.nextSibling := next;
    ghost var t := [child] + s;
    forall k | 0 < k < |t| ensures t[k].nextSibling == if k + 1 < |t| then t[k + 1] else null {
      assert t[k] == s[k - 1] && s[k - 1].nextSibling == old(s[k - 1].nextSibling);
    }
  }

  /** fs_link_child.  A node with no siblings yet is linked into the list of `parent`. */
  method LinkChild(parent: FsNode, child: FsNode, ghost s: seq<FsNode>)
    requires Chain(parent.firstChild, s) && child !in s && child.nextSibling == null
    modifies parent`firstChild, s`nextSibling, child`nextSibling
    ensures Chain(parent.firstChild, Linked(s, child))
  {
    LinkedDistinct(s, child);
    if parent.firstChild == null {
      parent.firstChild := child;
    } else {
      var i := ScanSiblings(parent.firstChild, child.name, s);
      if i == null {
        LinkInFront(parent, child, s);
      } else {
        LinkBehind(i, child, s, Stop(s, child.name));
      }
    }
  }

  lemma LinkedDistinct(s: seq<FsNode>, c: FsNode)
    requires Distinct(s) && c !in s
    ensures Distinct(Linked(s, c))
  {
    var i := Stop(s, c.name);
    if i < |s| {
      assert s == s[..i + 1] + s[i + 1..];
      DistinctParts(s[..i + 1], s[i + 1..]);
      DistinctConcat([c], s[i + 1..]);
      DistinctConcat(s[..i + 1], [c] + s[i + 1..]);
      assert Linked(s, c) == s[..i + 1] + ([c] + s[i + 1..]);
    } else {
      DistinctConcat([c], s);
    }
  }

  // ---- linking into a tree

  /** Different directories share no child. */
  ghost predicate Apart(kids: map<FsNode, seq<FsNode>>) {
    forall n, m, i, j :: n in kids && m in kids && n != m && 0 <= i < |kids[n]| && 0 <= j < |kids[m]| ==>
      kids[n][i] != kids[m][j]
  }

  ghost predicate HeadsGreatest(kids: map<FsNode, seq<FsNode>>) {
    forall n :: n in kids ==> HeadGreatest(kids[n])
  }

  /** `c` is in no directory. */
  ghost predicate Loose(kids: map<FsNode, seq<FsNode>>, c: FsNode) {
    forall n, i :: n in kids && 0 <= i < |kids[n]| ==> kids[n][i] != c
  }

  lemma LinkedApart(kids: map<FsNode, seq<FsNode>>, parent: FsNode, c: FsNode)
    requires Closed(kids) && Apart(kids) && HeadsGreatest(kids) && parent in kids && c in kids && Loose(kids, c)
    ensures var kids' := kids[parent := Linked(kids[parent], c)];
            Closed(kids') && Apart(kids') && HeadsGreatest(kids')
  {
    var t := Linked(kids[parent], c);
    forall i | 0 <= i < |t| ensures t[i] in kids[parent] || t[i] == c {
      LinkedIn(kids[parent], c, i);
    }
    LinkedHead(kids[parent], c);
  }

  /** fs_link_child keeps the whole tree: its links stay what the directories say, no
      directory shares a child with another, and each keeps its greatest name first. */
  method LinkInto(parent: FsNode, child: FsNode, ghost kids: map<FsNode, seq<FsNode>>)
    requires Holds(kids) && Apart(kids) && HeadsGreatest(kids)
    requires parent in kids && child in kids && Loose(kids, child) && child.nextSibling == null
    modifies kids.Keys`firstChild, kids.Keys`nextSibling
    ensures var kids' := kids[parent := Linked(kids[parent], child)];
            Holds(kids') && Apart(kids') && HeadsGreatest(kids')
  {
    LinkedApart(kids, parent, child);
    LinkChild(parent, child, kids[parent]);
  }

  /** Paths that do not contain the new name lead where they led. */
  lemma {:induction false} WalkUnchanged(kids: map<FsNode, seq<FsNode>>, parent: FsNode, c: FsNode,
                                         n: FsNode, comps: seq<Name>)
    requires Closed(kids) && Apart(kids) && HeadsGreatest(kids) && parent in kids && c in kids && Loose(kids, c)
    requires n in kids && c.name !in comps
    ensures Closed(kids[parent := Linked(kids[parent], c)])
    ensures Walk(kids[parent := Linked(kids[parent], c)], n, comps) == Walk(kids, n, comps)
    decreases |comps|
  {
    LinkedApart(kids, parent, c);
    if |comps| > 0 {
      LookupLinked(kids[parent], c, comps[0]);
      var m := Lookup(kids[n], comps[0]);
      if m != null {
        WalkUnchanged(kids, parent, c, m, comps[1..]);
      }
    }
  }
}
