/** Reading a list page by page, resuming behind the last item of a page that decodes: the
    combinatorics of EnumerateAllFrom in pkg/blobserver/enumerate.go. None stands for a row
    that does not decode. */
module PageRuns {
  import opened Collections
  import opened Options

  const BATCH_SIZE := 1000

  /** The items that decode, in order. */
  function Items<T>(rows: seq<Option<T>>): seq<T> {
    if rows == [] then []
    else (if rows[0].Some? then [rows[0].value] else []) + Items(rows[1..])
  }

  lemma {:induction false} ItemsAppend<T>(a: seq<Option<T>>, b: seq<Option<T>>)
    ensures Items(a + b) == Items(a) + Items(b)
  {
    if a == [] {
      assert a + b == b;
    } else {
      var h: seq<T> := if a[0].Some? then [a[0].value] else [];
      ItemsAppend(a[1..], b);
      DropFirst(a, b);
      assert Items(a + b) == h + Items(a[1..] + b);
      assert h + (Items(a[1..]) + Items(b)) == (h + Items(a[1..])) + Items(b);
    }
  }

  lemma {:induction false} ItemsEmpty<T>(rows: seq<Option<T>>)
    ensures Items(rows) == [] <==> forall i :: 0 <= i < |rows| ==> !rows[i].Some?
  {
    if rows != [] {
      ItemsEmpty(rows[1..]);
      assert forall i :: 0 < i < |rows| ==> rows[i] == rows[1..][i - 1];
    }
  }

  // ---- Where the items come from --------------------------------------------------------------------

  /** The items are those of the rows at these positions, in order. */
  ghost predicate ItemsAt<T>(rows: seq<Option<T>>, which: set<nat>, items: seq<T>) {
    exists idx: seq<nat> :: InOrder(idx, which) && ItemAt(rows, idx, items)
  }

  ghost predicate ItemAt<T>(rows: seq<Option<T>>, idx: seq<nat>, items: seq<T>) {
    |idx| == |items| && forall k :: 0 <= k < |items| ==> idx[k] < |rows| && rows[idx[k]] == Some(items[k])
  }

  /** The rows from o up to m that decode. */
  ghost function Good<T>(rows: seq<Option<T>>, o: nat, m: nat): set<nat>
    requires m <= |rows|
  {
    set i: nat | o <= i < m && rows[i].Some?
  }

  lemma ItemsSnoc<T>(rows: seq<Option<T>>, x: Option<T>)
    ensures Items(rows + [x]) == if x.Some? then Items(rows) + [x.value] else Items(rows)
  {
    ItemsAppend(rows, [x]);
    assert Items([x][1..]) == [];
  }

  lemma {:induction false} GoodItems<T>(rows: seq<Option<T>>, o: nat, m: nat)
    requires o <= m <= |rows|
    ensures ItemsAt(rows, Good(rows, o, m), Items(rows[o..m]))
  {
    if o == m {
      assert InOrder([], Good(rows, o, m)) && ItemAt(rows, [], Items(rows[o..m]));
    } else {
      var k := m - 1;
      GoodItems(rows, o, k);
      assert rows[o..m] == rows[o..k] + [rows[k]];
      ItemsSnoc(rows[o..k], rows[k]);
      GoodMore(rows, o, k, Items(rows[o..k]));
    }
  }

  lemma GoodMore<T>(rows: seq<Option<T>>, o: nat, k: nat, items: seq<T>)
    requires o <= k < |rows| && ItemsAt(rows, Good(rows, o, k), items)
    ensures ItemsAt(rows, Good(rows, o, k + 1), if rows[k].Some? then items + [rows[k].value] else items)
  {
    if rows[k].Some? {
      var idx :| InOrder(idx, Good(rows, o, k)) && ItemAt(rows, idx, items);
      InOrderMore(idx, Good(rows, o, k), k);
      assert Good(rows, o, k + 1) == Good(rows, o, k) + {k};
      assert ItemAt(rows, idx + [k], items + [rows[k].value]);
    } else {
      assert Good(rows, o, k + 1) == Good(rows, o, k);
    }
  }

  /** The position of the last row of a page that decodes. */
  ghost function LastGood<T>(page: seq<Option<T>>): (p: nat)
    requires Items(page) != []
    ensures p < |page| && page[p].Some? && forall j :: p < j < |page| ==> !page[j].Some?
  {
    ItemsEmpty(page);
    var i :| 0 <= i < |page| && page[i].Some?;
    LastFrom(page, i)
  }

  ghost function LastFrom<T>(page: seq<Option<T>>, i: nat): (p: nat)
    requires i < |page| && page[i].Some?
    ensures p < |page| && page[p].Some? && forall j :: p < j < |page| ==> !page[j].Some?
    decreases |page| - i
  {
    if j :| i < j < |page| && page[j].Some? then LastFrom(page, j) else i
  }

  /** What the paging calls fn on: a page, then again from behind the last row of it that
      decoded, until a page has none. */
  ghost function Emitted<T>(rows: seq<Option<T>>): seq<T>
    decreases |rows|
  {
    var page := Cut(rows, BATCH_SIZE);
    if Items(page) == [] then [] else Items(page) + Emitted(rows[LastGood(page) + 1..])
  }

  /** A full page of rows that do not decode, followed by one that does. */
  ghost predicate HasGap<T>(rows: seq<Option<T>>) {
    exists i, j :: 0 <= i <= i + 1000 <= j < |rows| && rows[j].Some? && BadRun(rows, i)
  }

  ghost predicate BadRun<T>(rows: seq<Option<T>>, i: int) {
    forall m :: 0 <= i <= m < i + 1000 && m < |rows| ==> !rows[m].Some?
  }

  lemma GapShift<T>(rows: seq<Option<T>>, p: nat)
    requires p < |rows| && p < BATCH_SIZE && rows[p].Some?
    ensures HasGap(rows) <==> HasGap(rows[p + 1..])
  {
    var tail := rows[p + 1..];
    if HasGap(rows) {
      var i, j :| 0 <= i <= i + BATCH_SIZE <= j < |rows| && rows[j].Some? && BadRun(rows, i);
      assert i > p;
      assert tail[j - p - 1].Some? && BadRun(tail, i - p - 1);
    }
    if HasGap(tail) {
      var i, j :| 0 <= i <= i + BATCH_SIZE <= j < |tail| && tail[j].Some? && BadRun(tail, i);
      assert rows[j + p + 1].Some?;
      assert BadRun(rows, i + p + 1) by {
        forall m | i + p + 1 <= m < i + p + 1 + BATCH_SIZE && m < |rows| ensures !rows[m].Some? {
          assert rows[m] == tail[m - p - 1];
        }
      }
    }
  }

  lemma PageItems<T>(rows: seq<Option<T>>, p: nat)
    requires p < |rows| && forall j :: p < j < |rows| ==> !rows[j].Some?
    ensures Items(rows) == Items(rows[..p + 1])
  {
    var (a, b) := (rows[..p + 1], rows[p + 1..]);
    assert rows == a + b;
    ItemsAppend(a, b);
    ItemsEmpty(b);
  }

  lemma Cancel<T>(x: seq<T>, a: seq<T>, b: seq<T>)
    ensures x + a == x + b <==> a == b
  {
    assert (x + a)[|x|..] == a && (x + b)[|x|..] == b;
  }

  lemma BadPage<T>(rows: seq<Option<T>>)
    requires Items(Cut(rows, BATCH_SIZE)) == []
    ensures Items(rows) == [] <==> !HasGap(rows)
  {
    var page := Cut(rows, BATCH_SIZE);
    ItemsEmpty(rows);
    ItemsEmpty(page);
    assert forall j :: 0 <= j < |page| ==> rows[j] == page[j];
    assert BadRun(rows, 0);
  }

  lemma SplitPage<T>(rows: seq<Option<T>>)
    requires Items(Cut(rows, BATCH_SIZE)) != []
    ensures var page := Cut(rows, BATCH_SIZE);
            var p := LastGood(page);
            p < |rows| && p < BATCH_SIZE && rows[p].Some? && Items(rows) == Items(page) + Items(rows[p + 1..])
  {
    var page := Cut(rows, BATCH_SIZE);
    var p := LastGood(page);
    PageItems(page, p);
    CutTake(rows, p + 1);
    ItemsAppend(rows[..p + 1], rows[p + 1..]);
  }

  lemma CutTake<T>(rows: seq<T>, k: nat)
    requires k <= |Cut(rows, BATCH_SIZE)|
    ensures Cut(rows, BATCH_SIZE)[..k] == rows[..k] && rows == rows[..k] + rows[k..]
  {
  }

  /** Paging is complete exactly when no full page of undecodable rows precedes a good one. */
  lemma {:induction false} PagingComplete<T>(rows: seq<Option<T>>)
    ensures Emitted(rows) == Items(rows) <==> !HasGap(rows)
    decreases |rows|
  {
    var page := Cut(rows, BATCH_SIZE);
    if Items(page) == [] {
      BadPage(rows);
    } else {
      SplitPage(rows);
      var p := LastGood(page);
      GapShift(rows, p);
      PagingComplete(rows[p + 1..]);
      Cancel(Items(page), Emitted(rows[p + 1..]), Items(rows[p + 1..]));
    }
  }

  lemma LastItem<T>(page: seq<Option<T>>)
    requires Items(page) != []
    ensures page[LastGood(page)] == Some(Items(page)[|Items(page)| - 1])
  {
    var p := LastGood(page);
    PageItems(page, p);
    assert page[..p + 1] == page[..p] + [page[p]];
    ItemsSnoc(page[..p], page[p]);
  }

  lemma EmittedNone<T>(rows: seq<Option<T>>)
    requires Items(Cut(rows, BATCH_SIZE)) == []
    ensures Emitted(rows) == []
  {
  }

  /** One page: its items, and what is emitted behind its last good row. */
  lemma EmittedMore<T>(rows: seq<Option<T>>, page: seq<Option<T>>) returns (p: nat)
    requires page == Cut(rows, BATCH_SIZE) && Items(page) != []
    ensures p < |rows| && rows[p] == Some(Items(page)[|Items(page)| - 1])
    ensures Emitted(rows) == Items(page) + Emitted(rows[p + 1..])
  {
    p := LastGood(page);
    LastItem(page);
    assert page[p] == rows[p];
  }

  /** One full page of undecodable rows hides everything behind it. */
  lemma GapExample<T>(x: T)
    ensures var rows: seq<Option<T>> := seq(1000, i => None) + [Some(x)]; Emitted(rows) == [] && Items(rows) != []
  {
    var rows: seq<Option<T>> := seq(BATCH_SIZE, i => None) + [Some(x)];
    assert rows[BATCH_SIZE].Some? && BadRun(rows, 0);
    ItemsEmpty(rows);
    ItemsEmpty(Cut(rows, BATCH_SIZE));
  }
}
