/** Unique paths for the files of a zip archive: renameDuplicates of app/publisher/zip.go. */
module ZipPaths {
  import opened Collections
  import opened BlobRef
  import opened ByteOrder
  import opened Decimals
  import opened Sorting

  datatype BlobFile = BlobFile(ref: Ref, path: string)

  /** The last dot of the last element of the path is at i. */
  ghost predicate LastDot(path: string, i: int) {
    0 <= i < |path| && path[i] == '.' && forall j :: i < j < |path| ==> path[j] != '.' && path[j] != '/'
  }

  /** path.Ext: from the last dot of the last element of the path, if it has one. */
  function Ext(path: string): (e: string)
    ensures e == [] ==> forall i :: !LastDot(path, i)
    ensures e != [] ==> |e| <= |path| && LastDot(path, |path| - |e|) && e == path[|path| - |e|..]
  {
    ExtFrom(path, |path|)
  }

  function ExtFrom(path: string, i: nat): (e: string)
    requires i <= |path| && forall j :: i <= j < |path| ==> path[j] != '.' && path[j] != '/'
    ensures e == [] ==> forall i :: !LastDot(path, i)
    ensures e != [] ==> |e| <= |path| && LastDot(path, |path| - |e|) && e == path[|path| - |e|..]
  {
    if i == 0 || path[i - 1] == '/' then ""
    else if path[i - 1] == '.' then path[i - 1..]
    else ExtFrom(path, i - 1)
  }

  /** The name tried for a duplicate with this suffix. */
  function Candidate(path: string, suffix: nat): string {
    path[..|path| - |Ext(path)|] + "(" + Numeral(suffix) + ")" + Ext(path)
  }

  /** Of a name with an extension the candidates have the number before the extension, of one without
      at the end. */
  lemma CandidateIs(stem: string, ext: string, suffix: nat)
    requires ext == [] ==> forall i :: !LastDot(stem, i)
    requires ext != [] ==> LastDot(ext, 0)
    ensures Candidate(stem + ext, suffix) == stem + "(" + Numeral(suffix) + ")" + ext
  {
    var path := stem + ext;
    if ext == [] {
      assert path == stem;
    } else {
      assert LastDot(path, |stem|) by { assert forall j :: |stem| <= j < |path| ==> path[j] == ext[j - |stem|]; }
      OneLastDot(path, |stem|);
      assert path[|stem|..] == ext;
    }
    assert path[..|path| - |ext|] == stem;
  }

  lemma OneLastDot(path: string, i: int)
    requires LastDot(path, i)
    ensures Ext(path) == path[i..]
  {
    assert Ext(path) != [];
    assert LastDot(path, |path| - |Ext(path)|);
  }

  lemma CandidateInjective(path: string, m: nat, n: nat)
    requires Candidate(path, m) == Candidate(path, n)
    ensures m == n
  {
    var (stem, ext) := (path[..|path| - |Ext(path)|] + "(", ")" + Ext(path));
    assert stem + Numeral(m) + ext == Candidate(path, m) && stem + Numeral(n) + ext == Candidate(path, n);
    Middle(stem, Numeral(m), Numeral(n), ext);
    NumeralInjective(m, n);
  }

  lemma Middle(a: string, x: string, y: string, b: string)
    requires a + x + b == a + y + b
    ensures x == y
  {
    assert |x| == |y|;
    assert x == (a + x + b)[|a|..|a| + |x|] && y == (a + y + b)[|a|..|a| + |y|];
  }

  function Candidates(path: string, n: nat): (c: set<string>) {
    set k | 1 <= k <= n :: Candidate(path, k)
  }

  lemma CandidateNew(path: string, n: nat)
    requires n > 0
    ensures Candidate(path, n) !in Candidates(path, n - 1)
  {
    forall k: nat | 1 <= k <= n - 1 ensures Candidate(path, k) != Candidate(path, n) {
      if Candidate(path, k) == Candidate(path, n) { CandidateInjective(path, k, n); }
    }
  }

  lemma CandidatesStep(path: string, n: nat)
    requires n > 0
    ensures Candidates(path, n) == Candidates(path, n - 1) + {Candidate(path, n)}
  {
  }

  lemma {:induction false} CandidatesCount(path: string, n: nat)
    ensures |Candidates(path, n)| == n
  {
    if n > 0 {
      CandidatesCount(path, n - 1);
      CandidateNew(path, n);
      CandidatesStep(path, n);
    } else {
      assert Candidates(path, 0) == {};
    }
  }

  /** There are never more taken candidates than taken paths, so the search ends. */
  lemma Pigeonhole(path: string, n: nat, taken: set<string>)
    requires forall k :: 1 <= k <= n ==> Candidate(path, k) in taken
    ensures n <= |taken|
  {
    CandidatesCount(path, n);
    SubsetSize(Candidates(path, n), taken);
  }

  /** The inner loop: the first candidate that is not taken. */
  method FreeName(path: string, noDup: map<string, Ref>) returns (newname: string, suffix: nat)
    ensures suffix >= 1 && newname == Candidate(path, suffix) && newname !in noDup
    ensures forall k :: 1 <= k < suffix ==> Candidate(path, k) in noDup
  {
    suffix := 0;
    while true
      invariant forall k :: 1 <= k <= suffix ==> Candidate(path, k) in noDup.Keys
      decreases |noDup.Keys| - suffix
    {
      Pigeonhole(path, suffix, noDup.Keys);
      suffix := suffix + 1;
      newname := Candidate(path, suffix);
      if newname !in noDup {
        break;
      }
      Pigeonhole(path, suffix, noDup.Keys);
    }
  }

  // ---- What the map holds -----------------------------------------------------------------------------

  /** entries lists the map, in the order the files came in. */
  ghost predicate IsList(noDup: map<string, Ref>, entries: seq<BlobFile>) {
    && NoRepeats(entries)
    && forall e :: e in entries <==> e.path in noDup && noDup[e.path] == e.ref
  }

  /** suffix is the first whose candidate is not in use. */
  ghost predicate FirstFree(before: seq<BlobFile>, path: string, suffix: nat) {
    suffix >= 1 && !Uses(before, Candidate(path, suffix)) && forall k: nat :: 1 <= k < suffix ==> Uses(before, Candidate(path, k))
  }

  /** After the entries before it, file f keeps its path if that is free, and otherwise gets the first
      free candidate for it. */
  ghost predicate Placed(before: seq<BlobFile>, f: BlobFile, e: BlobFile) {
    && e.ref == f.ref
    && if Uses(before, f.path) then exists suffix :: FirstFree(before, f.path, suffix) && e.path == Candidate(f.path, suffix)
       else e.path == f.path
  }

  /** The entries are the first files, one by one, each in its place. */
  ghost predicate Renames(files: seq<BlobFile>, entries: seq<BlobFile>) {
    && |entries| <= |files|
    && forall i :: 0 <= i < |entries| ==> Placed(entries[..i], files[i], entries[i])
  }

  ghost predicate Uses(entries: seq<BlobFile>, path: string) {
    exists j :: 0 <= j < |entries| && entries[j].path == path
  }

  lemma ListOneMore(noDup: map<string, Ref>, entries: seq<BlobFile>, e: BlobFile)
    requires IsList(noDup, entries) && e.path !in noDup
    ensures IsList(noDup[e.path := e.ref], entries + [e])
  {
    assert e !in entries;
  }

  lemma RenamesOneMore(files: seq<BlobFile>, entries: seq<BlobFile>, e: BlobFile)
    requires Renames(files, entries) && |entries| < |files| && Placed(entries, files[|entries|], e)
    ensures Renames(files, entries + [e])
  {
    var all := entries + [e];
    forall i | 0 <= i < |all| ensures Placed(all[..i], files[i], all[i]) {
      assert all[..i] == entries[..i];
      if i == |entries| { assert entries[..i] == entries; }
    }
  }

  /** Every path asked for is in use. */
  lemma PathsUsed(files: seq<BlobFile>, entries: seq<BlobFile>, i: nat)
    requires Renames(files, entries) && i < |entries|
    ensures Uses(entries, files[i].path)
  {
    assert Placed(entries[..i], files[i], entries[i]);
    if Uses(entries[..i], files[i].path) {
      var j :| 0 <= j < i && entries[..i][j].path == files[i].path;
      assert entries[j].path == files[i].path;
    }
  }

  lemma PlacedOnce(before: seq<BlobFile>, f: BlobFile, e: BlobFile, e': BlobFile)
    requires Placed(before, f, e) && Placed(before, f, e')
    ensures e == e'
  {
    if Uses(before, f.path) {
      var m :| FirstFree(before, f.path, m) && e.path == Candidate(f.path, m);
      var n :| FirstFree(before, f.path, n) && e'.path == Candidate(f.path, n);
      assert m == n;
    }
  }

  /** Which file gets which path is determined. */
  lemma {:induction false} RenamesOnce(files: seq<BlobFile>, entries: seq<BlobFile>, entries': seq<BlobFile>, n: nat)
    requires Renames(files, entries) && Renames(files, entries') && n <= |entries| && n <= |entries'|
    ensures entries[..n] == entries'[..n]
  {
    if n > 0 {
      var k := n - 1;
      RenamesOnce(files, entries, entries', k);
      assert Placed(entries[..k], files[k], entries[k]) && Placed(entries'[..k], files[k], entries'[k]);
      PlacedOnce(entries[..k], files[k], entries[k], entries'[k]);
      assert entries[..n] == entries[..k] + [entries[k]] && entries'[..n] == entries'[..k] + [entries'[k]];
    }
  }

  lemma ListedUses(noDup: map<string, Ref>, entries: seq<BlobFile>, path: string)
    requires IsList(noDup, entries)
    ensures Uses(entries, path) <==> path in noDup
  {
    if path in noDup { assert BlobFile(noDup[path], path) in entries; }
    if j :| 0 <= j < |entries| && entries[j].path == path { assert entries[j] in entries; }
  }

  lemma FreeIsPlaced(noDup: map<string, Ref>, entries: seq<BlobFile>, f: BlobFile, suffix: nat)
    requires IsList(noDup, entries) && f.path in noDup && suffix >= 1 && Candidate(f.path, suffix) !in noDup
    requires forall k :: 1 <= k < suffix ==> Candidate(f.path, k) in noDup
    ensures Placed(entries, f, BlobFile(f.ref, Candidate(f.path, suffix)))
  {
    ListedUses(noDup, entries, f.path);
    ListedUses(noDup, entries, Candidate(f.path, suffix));
    forall k: nat | 1 <= k < suffix ensures Uses(entries, Candidate(f.path, k)) { ListedUses(noDup, entries, Candidate(f.path, k)); }
    assert FirstFree(entries, f.path, suffix);
  }

  /** The loop over the files. */
  method Rename(bf: seq<BlobFile>) returns (noDup: map<string, Ref>, ghost entries: seq<BlobFile>)
    ensures |entries| == |bf| && IsList(noDup, entries) && Renames(bf, entries)
  {
    noDup, entries := map[], [];
    for n := 0 to |bf|
      invariant |entries| == n && IsList(noDup, entries) && Renames(bf, entries)
    {
      var file := bf[n];
      if file.path in noDup {
        var newname, suffix := FreeName(file.path, noDup);
        var e := BlobFile(file.ref, newname);
        FreeIsPlaced(noDup, entries, file, suffix);
        ListOneMore(noDup, entries, e);
        RenamesOneMore(bf, entries, e);
        noDup := noDup[newname := file.ref];
        entries := entries + [e];
      } else {
        ListedUses(noDup, entries, file.path);
        ListOneMore(noDup, entries, file);
        RenamesOneMore(bf, entries, file);
        noDup := noDup[file.path := file.ref];
        entries := entries + [file];
      }
    }
  }

  /** The loop over the map. */
  method Entries(noDup: map<string, Ref>) returns (l: seq<BlobFile>)
    ensures IsList(noDup, l)
  {
    l := [];
    var todo := noDup.Keys;
    while todo != {}
      invariant todo <= noDup.Keys && NoRepeats(l)
      invariant forall e :: e in l <==> e.path in noDup && noDup[e.path] == e.ref && e.path !in todo
      decreases |todo|
    {
      var p :| p in todo;
      todo := todo - {p};
      l := l + [BlobFile(noDup[p], p)];
    }
  }

  // ---- Sorted -------------------------------------------------------------------------------------------

  predicate ByPath(a: BlobFile, b: BlobFile) { Lt(a.path, b.path) }

  lemma ByPathIsOrder()
    ensures IsOrder(ByPath)
  {
    forall a ensures !ByPath(a, a) { LtIrreflexive(a.path); }
    forall a, b, c | ByPath(a, b) && ByPath(b, c) ensures ByPath(a, c) { LtTransitive(a.path, b.path, c.path); }
    forall a, b, c | ByPath(a, c) ensures ByPath(a, b) || ByPath(b, c) {
      LtTotal(a.path, b.path);
      if ByPath(b, a) { LtTransitive(b.path, a.path, c.path); }
    }
  }

  /** renameDuplicates: the files, each with its own path if no earlier file has it and otherwise with
      the first free candidate, strictly increasing by path; every path asked for is in use, and the
      blobs are the same, each as often. */
  method RenameDuplicates(bf: seq<BlobFile>) returns (sorted: seq<BlobFile>, ghost entries: seq<BlobFile>)
    ensures forall i, j :: 0 <= i < j < |sorted| ==> Lt(sorted[i].path, sorted[j].path)
    ensures |entries| == |bf| && multiset(sorted) == multiset(entries) && Renames(bf, entries)
    ensures |sorted| == |bf| && Refs(sorted) == Refs(bf)
    ensures forall i :: 0 <= i < |bf| ==> Uses(sorted, bf[i].path)
  {
    var noDup;
    noDup, entries := Rename(bf);
    var l := Entries(noDup);
    SameMembersBag(l, entries);
    ByPathIsOrder();
    sorted := Sort(l, ByPath);
    SameBagMembers(l, sorted);
    StrictByPath(noDup, sorted);
    RefsPreserved(bf, entries, sorted);
  }

  lemma StrictByPath(noDup: map<string, Ref>, l: seq<BlobFile>)
    requires IsList(noDup, l) && Sorted(l, ByPath)
    ensures StrictlySorted(l, ByPath)
  {
    forall i, j | 0 <= i < j < |l| ensures ByPath(l[i], l[j]) {
      assert l[i] in l && l[j] in l && l[i] != l[j];
      LtTotal(l[i].path, l[j].path);
    }
  }

  /** The blobs of the files, each as often as it occurs. */
  function Refs(l: seq<BlobFile>): multiset<Ref> {
    if l == [] then multiset{} else Refs(l[..|l| - 1]) + multiset{l[|l| - 1].ref}
  }

  lemma Exchange(m: multiset<Ref>, x: Ref, y: Ref)
    ensures m + multiset{x} + multiset{y} == m + multiset{y} + multiset{x}
  {
  }

  lemma {:induction false} RefsOut(b: seq<BlobFile>, i: nat)
    requires i < |b|
    ensures Refs(b) == Refs(b[..i] + b[i + 1..]) + multiset{b[i].ref}
  {
    var k := |b| - 1;
    if i == k {
      assert b[..i] + b[i + 1..] == b[..k];
    } else {
      OutFront(b, i);
      RefsOut(b[..k], i);
      Exchange(Refs(b[..k][..i] + b[..k][i + 1..]), b[i].ref, b[k].ref);
    }
  }

  lemma {:induction false} RefsBag(a: seq<BlobFile>, b: seq<BlobFile>)
    requires multiset(a) == multiset(b)
    ensures Refs(a) == Refs(b)
  {
    if a == [] {
      assert |multiset(a)| == |a| && |multiset(b)| == |b|;
    } else {
      var k := |a| - 1;
      var i := Find(b, a[k], a);
      OutBag(a, k);
      OutBag(b, i);
      RefsOut(b, i);
      assert a[..k] + a[k + 1..] == a[..k];
      RefsBag(a[..k], b[..i] + b[i + 1..]);
    }
  }

  lemma Find(b: seq<BlobFile>, e: BlobFile, a: seq<BlobFile>) returns (i: nat)
    requires e in a && multiset(a) == multiset(b)
    ensures i < |b| && b[i] == e
  {
    assert e in multiset(b);
    i :| 0 <= i < |b| && b[i] == e;
  }

  lemma {:induction false} RefsRenamed(bf: seq<BlobFile>, entries: seq<BlobFile>)
    requires |entries| == |bf| && forall i :: 0 <= i < |bf| ==> entries[i].ref == bf[i].ref
    ensures Refs(entries) == Refs(bf)
  {
    if bf != [] { RefsRenamed(bf[..|bf| - 1], entries[..|bf| - 1]); }
  }

  /** No blob is lost or added, and no path lost. */
  lemma RefsPreserved(bf: seq<BlobFile>, entries: seq<BlobFile>, sorted: seq<BlobFile>)
    requires multiset(sorted) == multiset(entries) && Renames(bf, entries) && |entries| == |bf|
    ensures |sorted| == |bf| && Refs(sorted) == Refs(bf)
    ensures forall i :: 0 <= i < |bf| ==> Uses(sorted, bf[i].path)
  {
    forall i | 0 <= i < |bf| ensures entries[i].ref == bf[i].ref { assert Placed(entries[..i], bf[i], entries[i]); }
    RefsRenamed(bf, entries);
    RefsBag(sorted, entries);
    assert |multiset(sorted)| == |sorted| && |multiset(entries)| == |entries|;
    forall i | 0 <= i < |bf| ensures Uses(sorted, bf[i].path) {
      PathsUsed(bf, entries, i);
      UsesSame(entries, sorted, bf[i].path);
    }
  }

  lemma UsesSame(entries: seq<BlobFile>, sorted: seq<BlobFile>, path: string)
    requires multiset(sorted) == multiset(entries) && Uses(entries, path)
    ensures Uses(sorted, path)
  {
    var j :| 0 <= j < |entries| && entries[j].path == path;
    var i := Find(sorted, entries[j], entries);
  }
}
