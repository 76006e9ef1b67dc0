/** The walk that feeds the tree upload: statPath of cmd/camput/files.go. */
module StatWalk {
  import opened Collections
  import opened Options
  import opened TreeUpload

  /** What the file system has at a path; `fails` covers an error from lstat, open or Readdir. */
  datatype Entry = Entry(ignored: bool, fails: bool, isDir: bool, size: nat, entries: seq<Entry>)

  /** Some entry that the walk looks at fails. */
  predicate Fails(e: Entry) {
    !e.ignored && (e.fails || (e.isDir && exists i | 0 <= i < |e.entries| :: Fails(e.entries[i])))
  }

  /** The number of entries that are not ignored, nor inside an ignored directory. */
  function Count(e: Entry): nat {
    if e.ignored then 0 else if e.isDir then 1 + CountFirst(e.entries, |e.entries|) else 1
  }

  /** The same for the first n of the entries. */
  function CountFirst(es: seq<Entry>, n: nat): nat
    requires n <= |es|
  {
    if n == 0 then 0 else CountFirst(es, n - 1) + Count(es[n - 1])
  }

  /** The nodes of an entry, when `base` nodes were sent before: those of its entries in order, and
      then its own. */
  function Walk(e: Entry, base: nat): seq<FileNode> {
    if e.ignored then []
    else if e.isDir then WalkFirst(e.entries, |e.entries|, base) + [FileNode(true, e.size, Tops(e.entries, |e.entries|, base))]
    else [FileNode(false, e.size, [])]
  }

  /** The nodes of the first n entries. */
  function WalkFirst(es: seq<Entry>, n: nat, base: nat): seq<FileNode>
    requires n <= |es|
  {
    if n == 0 then [] else WalkFirst(es, n - 1, base) + Walk(es[n - 1], base + CountFirst(es, n - 1))
  }

  /** Where the nodes of the first n entries themselves are. */
  function Tops(es: seq<Entry>, n: nat, base: nat): seq<nat>
    requires n <= |es|
  {
    if n == 0 then []
    else if es[n - 1].ignored then Tops(es, n - 1, base)
    else
      assert Count(es[n - 1]) > 0;
      Tops(es, n - 1, base) + [base + CountFirst(es, n - 1) + Count(es[n - 1]) - 1]
  }

  lemma {:induction false} WalkCounts(e: Entry, base: nat)
    ensures |Walk(e, base)| == Count(e)
    decreases e, |e.entries| + 1
  {
    if e.isDir { WalkFirstCounts(e, |e.entries|, base); }
  }

  lemma {:induction false} WalkFirstCounts(e: Entry, n: nat, base: nat)
    requires n <= |e.entries|
    ensures |WalkFirst(e.entries, n, base)| == CountFirst(e.entries, n)
    decreases e, n
  {
    if n > 0 {
      WalkFirstCounts(e, n - 1, base);
      WalkCounts(e.entries[n - 1], base + CountFirst(e.entries, n - 1));
    }
  }

  // ---- What the nodes stand for --------------------------------------------------------------------

  /** Node n is that of the entry: a file of its size, or a directory whose children are the nodes of
      its entries that are not ignored, in order. */
  ghost predicate Stands(nodes: seq<FileNode>, n: nat, e: Entry)
    decreases e, |e.entries| + 1
  {
    && n < |nodes| && nodes[n].isDir == e.isDir && nodes[n].size == e.size
    && if e.isDir then EntriesStand(nodes, nodes[n].children, e, |e.entries|) else nodes[n].children == []
  }

  /** The children are the nodes of the first k entries, the ignored ones left out. */
  ghost predicate EntriesStand(nodes: seq<FileNode>, children: seq<nat>, e: Entry, k: nat)
    requires k <= |e.entries|
    decreases e, k
  {
    if k == 0 then children == []
    else if e.entries[k - 1].ignored then EntriesStand(nodes, children, e, k - 1)
    else
      var last := |children| - 1;
      last >= 0 && Stands(nodes, children[last], e.entries[k - 1]) && EntriesStand(nodes, children[..last], e, k - 1)
  }

  lemma {:induction false} StandsStill(nodes: seq<FileNode>, n: nat, e: Entry, more: seq<FileNode>)
    requires Stands(nodes, n, e) && nodes <= more
    ensures Stands(more, n, e)
    decreases e, |e.entries| + 1
  {
    assert more[n] == nodes[n];
    if e.isDir { EntriesStandStill(nodes, nodes[n].children, e, |e.entries|, more); }
  }

  lemma {:induction false} EntriesStandStill(nodes: seq<FileNode>, children: seq<nat>, e: Entry, k: nat, more: seq<FileNode>)
    requires k <= |e.entries| && EntriesStand(nodes, children, e, k) && nodes <= more
    ensures EntriesStand(more, children, e, k)
    decreases e, k
  {
    if k > 0 {
      if e.entries[k - 1].ignored {
        EntriesStandStill(nodes, children, e, k - 1, more);
      } else {
        StandsStill(nodes, children[|children| - 1], e.entries[k - 1], more);
        EntriesStandStill(nodes, children[..|children| - 1], e, k - 1, more);
      }
    }
  }

  lemma NewStands(nodes: seq<FileNode>, n: FileNode, e: Entry)
    requires n.isDir == e.isDir && n.size == e.size
    requires if e.isDir then EntriesStand(nodes, n.children, e, |e.entries|) else n.children == []
    ensures Stands(nodes + [n], |nodes|, e)
  {
    if e.isDir { EntriesStandStill(nodes, n.children, e, |e.entries|, nodes + [n]); }
  }

  /** The last of the nodes sent for an entry is its own, whatever was sent before. */
  lemma {:induction false} WalkStands(start: seq<FileNode>, e: Entry)
    requires !e.ignored
    ensures Stands(start + Walk(e, |start|), |start| + |Walk(e, |start|)| - 1, e)
    decreases e, |e.entries| + 1
  {
    if e.isDir {
      var below := WalkFirst(e.entries, |e.entries|, |start|);
      var n := FileNode(true, e.size, Tops(e.entries, |e.entries|, |start|));
      EntriesWalkStands(start, e, |e.entries|);
      NewStands(start + below, n, e);
      Associative(start, below, [n]);
    } else {
      NewStands(start, FileNode(false, e.size, []), e);
    }
  }

  lemma {:induction false} EntriesWalkStands(start: seq<FileNode>, e: Entry, k: nat)
    requires k <= |e.entries|
    ensures EntriesStand(start + WalkFirst(e.entries, k, |start|), Tops(e.entries, k, |start|), e, k)
    decreases e, k
  {
    if k > 0 {
      var before := WalkFirst(e.entries, k - 1, |start|);
      EntriesWalkStands(start, e, k - 1);
      WalkFirstCounts(e, k - 1, |start|);
      if !e.entries[k - 1].ignored { WalkStands(start + before, e.entries[k - 1]); }
      OneEntryStands(start, e, k, start + before, Walk(e.entries[k - 1], |start + before|));
    }
  }

  lemma OneEntryStands(start: seq<FileNode>, e: Entry, k: nat, nodes: seq<FileNode>, more: seq<FileNode>)
    requires 0 < k <= |e.entries| && |nodes| == |start| + CountFirst(e.entries, k - 1)
    requires nodes == start + WalkFirst(e.entries, k - 1, |start|) && more == Walk(e.entries[k - 1], |nodes|)
    requires EntriesStand(nodes, Tops(e.entries, k - 1, |start|), e, k - 1)
    requires !e.entries[k - 1].ignored ==> Stands(nodes + more, |nodes| + |more| - 1, e.entries[k - 1])
    ensures EntriesStand(start + WalkFirst(e.entries, k, |start|), Tops(e.entries, k, |start|), e, k)
  {
    var (x, children) := (e.entries[k - 1], Tops(e.entries, k - 1, |start|));
    EntriesStandStill(nodes, children, e, k - 1, nodes + more);
    WalkCounts(x, |nodes|);
    if !x.ignored { TopsSnoc(e.entries, k, |start|); }
    EntryStands(nodes + more, children, e, k, Tops(e.entries, k, |start|));
    NodesSame(start, e.entries, k, nodes, more);
  }

  lemma EntryStands(nodes: seq<FileNode>, children: seq<nat>, e: Entry, k: nat, children': seq<nat>)
    requires 0 < k <= |e.entries| && EntriesStand(nodes, children, e, k - 1)
    requires if e.entries[k - 1].ignored then children' == children
             else children' != [] && children'[..|children'| - 1] == children && Stands(nodes, children'[|children'| - 1], e.entries[k - 1])
    ensures EntriesStand(nodes, children', e, k)
  {
  }

  lemma NodesSame(start: seq<FileNode>, es: seq<Entry>, k: nat, nodes: seq<FileNode>, more: seq<FileNode>)
    requires 0 < k <= |es| && |nodes| == |start| + CountFirst(es, k - 1)
    requires nodes == start + WalkFirst(es, k - 1, |start|) && more == Walk(es[k - 1], |nodes|)
    ensures nodes + more == start + WalkFirst(es, k, |start|)
  {
    Associative(start, WalkFirst(es, k - 1, |start|), more);
  }

  lemma TopsSnoc(es: seq<Entry>, k: nat, base: nat)
    requires 0 < k <= |es| && !es[k - 1].ignored
    ensures var t := Tops(es, k, base);
            t != [] && t[..|t| - 1] == Tops(es, k - 1, base) && t[|t| - 1] == base + CountFirst(es, k - 1) + Count(es[k - 1]) - 1
  {
  }

  ghost predicate Ascending(children: seq<nat>) {
    forall j, k :: 0 <= j < k < |children| ==> children[j] < children[k]
  }

  lemma {:induction false} TopsAscend(es: seq<Entry>, n: nat, base: nat)
    requires n <= |es|
    ensures Ascending(Tops(es, n, base))
    ensures forall c :: c in Tops(es, n, base) ==> base <= c < base + CountFirst(es, n)
  {
    if n > 0 {
      TopsAscend(es, n - 1, base);
      var front := Tops(es, n - 1, base);
      assert forall j :: 0 <= j < |front| ==> front[j] in front;
    }
  }

  /** The children of every node were sent in their order. */
  ghost predicate ChildrenInOrder(nodes: seq<FileNode>) {
    forall i :: 0 <= i < |nodes| ==> Ascending(nodes[i].children)
  }

  lemma {:induction false} WalkInOrder(e: Entry, base: nat)
    ensures ChildrenInOrder(Walk(e, base))
    decreases e, |e.entries| + 1
  {
    if e.ignored {
      assert Walk(e, base) == [];
    } else if e.isDir {
      var n := FileNode(true, e.size, Tops(e.entries, |e.entries|, base));
      EntriesInOrder(e, |e.entries|, base);
      TopsAscend(e.entries, |e.entries|, base);
      OneMoreInOrder(WalkFirst(e.entries, |e.entries|, base), n);
      assert Walk(e, base) == WalkFirst(e.entries, |e.entries|, base) + [n];
    } else {
      assert Walk(e, base) == [FileNode(false, e.size, [])];
    }
  }

  lemma OneMoreInOrder(nodes: seq<FileNode>, n: FileNode)
    requires ChildrenInOrder(nodes) && Ascending(n.children)
    ensures ChildrenInOrder(nodes + [n])
  {
  }

  lemma {:induction false} EntriesInOrder(e: Entry, n: nat, base: nat)
    requires n <= |e.entries|
    ensures ChildrenInOrder(WalkFirst(e.entries, n, base))
    decreases e, n
  {
    if n > 0 {
      EntriesInOrder(e, n - 1, base);
      WalkInOrder(e.entries[n - 1], base + CountFirst(e.entries, n - 1));
    }
  }

  ghost predicate ParentsAreDirs(nodes: seq<FileNode>) {
    forall i :: 0 <= i < |nodes| && nodes[i].children != [] ==> nodes[i].isDir
  }

  ghost predicate HasParent(nodes: seq<FileNode>, m: nat) {
    exists p :: 0 <= p < |nodes| && m in nodes[p].children
  }

  /** Nodes `from` and up are in children, or have a parent. */
  ghost predicate Parented(nodes: seq<FileNode>, from: nat, children: seq<nat>) {
    forall m :: from <= m < |nodes| ==> m in children || HasParent(nodes, m)
  }

  lemma ParentKept(nodes: seq<FileNode>, more: seq<FileNode>, m: nat)
    requires HasParent(nodes, m) && nodes <= more
    ensures HasParent(more, m)
  {
    var p :| 0 <= p < |nodes| && m in nodes[p].children;
    assert more[p] == nodes[p];
  }

  /** The nodes of one more child. */
  lemma OneChildMore(nodes: seq<FileNode>, from: nat, children: seq<nat>, more: seq<FileNode>, children': seq<nat>)
    requires Parented(nodes, from, children) && nodes <= more && from <= |nodes|
    requires forall c :: c in children ==> c in children'
    requires Parented(more, |nodes|, children')
    ensures Parented(more, from, children')
  {
    forall m | from <= m < |more| ensures m in children' || HasParent(more, m) {
      if m < |nodes| && m !in children' { ParentKept(nodes, more, m); }
    }
  }

  lemma SendParent(nodes: seq<FileNode>, from: nat, n: FileNode)
    requires Parented(nodes, from, n.children) && ChildrenFirst(nodes) && from <= |nodes|
    requires forall c :: c in n.children ==> c < |nodes|
    ensures Parented(nodes + [n], from, [|nodes|]) && ChildrenFirst(nodes + [n])
  {
    var all := nodes + [n];
    forall m | from <= m < |all| ensures m in [|nodes|] || HasParent(all, m) {
      if m < |nodes| {
        if m in n.children { assert m in all[|nodes|].children; } else { ParentKept(nodes, all, m); }
      }
    }
  }

  class Walker {
    var sent: seq<FileNode>

    ghost predicate Valid()
      reads this
    {
      ChildrenFirst(sent) && ParentsAreDirs(sent)
    }

    constructor ()
      ensures Valid() && sent == []
    {
      sent := [];
    }

    /** statPath: sends the nodes of the entry, children first, which stand for the tree of entries; all
        under a node hangs from it in the end. An error is reported exactly when an entry looked at fails. */
    method StatPath(e: Entry) returns (nod: Option<nat>, err: bool)
      requires Valid()
      modifies this
      ensures Valid() && old(sent) <= sent && (err <==> Fails(e))
      ensures !err ==> sent == old(sent) + Walk(e, |old(sent)|)
      ensures !err ==> nod == if e.ignored then None else Some(|sent| - 1)
      ensures !err && nod.Some? ==> Parented(sent, |old(sent)|, [nod.value])
      decreases e, 1
    {
      if e.ignored {
        assert sent + [] == sent;
        return None, false;
      }
      if e.fails {
        return None, true;
      }
      var children: seq<nat> := [];
      ghost var below: seq<FileNode> := [];
      if e.isDir {
        children, err := StatEntries(e);
        if err {
          return None, true;
        }
        below := WalkFirst(e.entries, |e.entries|, |old(sent)|);
      }
      var n := FileNode(e.isDir, e.size, children);
      SendParent(sent, |old(sent)|, n);
      Grouped(old(sent), below, n, sent);
      nod, err := Some(|sent|), false;
      sent := sent + [n];
    }

    /** The loop over the entries of a directory. */
    method StatEntries(e: Entry) returns (children: seq<nat>, err: bool)
      requires Valid()
      modifies this
      ensures Valid() && old(sent) <= sent && (err <==> exists i :: 0 <= i < |e.entries| && Fails(e.entries[i]))
      ensures !err ==> Walked(sent, old(sent), children, e.entries, |e.entries|)
      ensures !err ==> Parented(sent, |old(sent)|, children) && forall c :: c in children ==> c < |sent|
      decreases e, 0
    {
      children, err := [], false;
      assert sent + [] == sent;
      for i := 0 to |e.entries|
        invariant Valid() && old(sent) <= sent
        invariant Walked(sent, old(sent), children, e.entries, i)
        invariant forall c :: c in children ==> c < |sent|
        invariant forall j :: 0 <= j < i ==> !Fails(e.entries[j])
        invariant Parented(sent, |old(sent)|, children)
      {
        ghost var (before, children0) := (sent, children);
        WalkCounts(e.entries[i], |sent|);
        var depn, failed := StatPath(e.entries[i]);
        if failed {
          return [], true;
        }
        if depn.Some? {
          children := children + [depn.value];
        }
        OneChildMore(before, |old(sent)|, children0, sent, children);
        WalkedMore(before, old(sent), children0, e.entries, i, sent, children);
      }
    }
  }

  /** The nodes of the first n entries have been sent, after those of `start`, and the children are
      theirs. */
  ghost predicate Walked(sent: seq<FileNode>, start: seq<FileNode>, children: seq<nat>, es: seq<Entry>, n: nat)
    requires n <= |es|
  {
    var walked := sent == start + WalkFirst(es, n, |start|) && |sent| == |start| + CountFirst(es, n);
    walked && children == Tops(es, n, |start|)
  }

  lemma WalkedMore(sent: seq<FileNode>, start: seq<FileNode>, children: seq<nat>, es: seq<Entry>, i: nat, sent': seq<FileNode>, children': seq<nat>)
    requires i < |es| && Walked(sent, start, children, es, i)
    requires sent' == sent + Walk(es[i], |sent|) && |Walk(es[i], |sent|)| == Count(es[i])
    requires children' == if es[i].ignored then children else children + [|sent'| - 1]
    ensures Walked(sent', start, children', es, i + 1)
  {
    Longer(start, WalkFirst(es, i, |start|), Walk(es[i], |sent|), sent, sent');
  }

  lemma Longer(start: seq<FileNode>, walked: seq<FileNode>, more: seq<FileNode>, sent: seq<FileNode>, sent': seq<FileNode>)
    requires sent == start + walked && sent' == sent + more
    ensures sent' == start + (walked + more) && |sent'| == |sent| + |more|
  {
    Associative(start, walked, more);
  }

  lemma Grouped(start: seq<FileNode>, below: seq<FileNode>, n: FileNode, sent: seq<FileNode>)
    requires sent == start + below
    ensures sent + [n] == start + (below + [n])
    ensures below == [] ==> below + [n] == [n]
  {
  }
}
