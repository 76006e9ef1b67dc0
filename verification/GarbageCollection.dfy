/** The mark and sweep collector of pkg/gc/gc.go. */
module GarbageCollection {

  /** Items are compared and nothing else, so numbers will do for them. */
  type Item = int

  type Edges = Item -> seq<Item>

  // ---- Reachability -----------------------------------------------------------------------------

  /** A path from a root that, after its first item, stays clear of the items in `stale`. */
  ghost predicate IsPath(edges: Edges, roots: seq<Item>, stale: set<Item>, p: seq<Item>) {
    && p != [] && p[0] in roots
    && forall i :: 0 < i < |p| ==> p[i] in edges(p[i - 1]) && p[i] !in stale
  }

  ghost predicate ReachedClear(edges: Edges, roots: seq<Item>, stale: set<Item>, x: Item) {
    exists p :: IsPath(edges, roots, stale, p) && p[|p| - 1] == x
  }

  ghost predicate Reachable(edges: Edges, roots: seq<Item>, x: Item) {
    ReachedClear(edges, roots, {}, x)
  }

  lemma RootReached(edges: Edges, roots: seq<Item>, stale: set<Item>, x: Item)
    requires x in roots
    ensures ReachedClear(edges, roots, stale, x)
  {
    assert IsPath(edges, roots, stale, [x]);
  }

  lemma ExtendReached(edges: Edges, roots: seq<Item>, stale: set<Item>, x: Item, y: Item)
    requires ReachedClear(edges, roots, stale, x) && y in edges(x) && y !in stale
    ensures ReachedClear(edges, roots, stale, y)
  {
    var p :| IsPath(edges, roots, stale, p) && p[|p| - 1] == x;
    assert IsPath(edges, roots, stale, p + [y]);
  }

  /** The edges out of the items lead into `into`. */
  ghost predicate LeadInto(edges: Edges, items: set<Item>, into: set<Item>) {
    forall x, y :: x in items && y in edges(x) ==> y in into
  }

  lemma LeadStep(edges: Edges, items: set<Item>, into: set<Item>, x: Item, y: Item)
    requires LeadInto(edges, items, into) && x in items && y in edges(x)
    ensures y in into
  {
  }

  /** What marking has done when it is through with every root. */
  ghost predicate Through(edges: Edges, roots: seq<Item>, stale: set<Item>, marked: set<Item>) {
    && stale <= marked
    && (forall x :: x in roots ==> x in marked)
    && (forall x :: x in roots ==> LeadInto(edges, {x}, marked))
    && LeadInto(edges, marked - stale, marked)
  }

  lemma {:induction false} PathMarked(edges: Edges, roots: seq<Item>, stale: set<Item>, marked: set<Item>, p: seq<Item>, n: nat)
    requires Through(edges, roots, stale, marked) && IsPath(edges, roots, stale, p) && n < |p|
    ensures p[n] in marked
  {
    if n > 0 {
      PathMarked(edges, roots, stale, marked, p, n - 1);
      assert p[n] in edges(p[n - 1]);
      if n == 1 {
        LeadStep(edges, {p[0]}, marked, p[0], p[1]);
      } else {
        LeadStep(edges, marked - stale, marked, p[n - 1], p[n]);
      }
    } else {
      var root := p[0];
      assert root in roots;
    }
  }

  lemma ReachedMarked(edges: Edges, roots: seq<Item>, stale: set<Item>, marked: set<Item>)
    requires Through(edges, roots, stale, marked)
    ensures forall x :: ReachedClear(edges, roots, stale, x) ==> x in marked
  {
    forall x | ReachedClear(edges, roots, stale, x) ensures x in marked {
      var p :| IsPath(edges, roots, stale, p) && p[|p| - 1] == x;
      PathMarked(edges, roots, stale, marked, p, |p| - 1);
    }
  }

  /** An item that is reachable is kept, or hidden behind a stale mark. */
  ghost predicate Kept(edges: Edges, roots: seq<Item>, stale: set<Item>, x: Item) {
    x in stale || ReachedClear(edges, roots, stale, x)
  }

  /** What the reachable stale items lead to is kept all the same. */
  ghost predicate Harmless(edges: Edges, roots: seq<Item>, stale: set<Item>) {
    forall s, y :: s in stale && Reachable(edges, roots, s) && y in edges(s) ==> Kept(edges, roots, stale, y)
  }

  lemma PathReached(edges: Edges, roots: seq<Item>, p: seq<Item>, n: nat)
    requires IsPath(edges, roots, {}, p) && n < |p|
    ensures Reachable(edges, roots, p[n])
  {
    assert IsPath(edges, roots, {}, p[..n + 1]);
    assert p[..n + 1][n] == p[n];
  }

  lemma {:induction false} PathKept(edges: Edges, roots: seq<Item>, stale: set<Item>, p: seq<Item>, n: nat)
    requires Harmless(edges, roots, stale) && IsPath(edges, roots, {}, p) && n < |p|
    ensures Kept(edges, roots, stale, p[n])
  {
    if n == 0 {
      var root := p[0];
      assert root in roots;
      RootReached(edges, roots, stale, root);
    } else {
      PathKept(edges, roots, stale, p, n - 1);
      PathReached(edges, roots, p, n - 1);
      var (s, y) := (p[n - 1], p[n]);
      assert y in edges(s);
      if s !in stale && y !in stale { ExtendReached(edges, roots, stale, s, y); }
    }
  }

  /** No reachable item is hidden if and only if the stale marks are harmless. */
  lemma NothingHiddenIff(edges: Edges, roots: seq<Item>, stale: set<Item>)
    ensures (forall x :: Reachable(edges, roots, x) ==> Kept(edges, roots, stale, x)) <==> Harmless(edges, roots, stale)
  {
    if Harmless(edges, roots, stale) {
      forall x | Reachable(edges, roots, x) ensures Kept(edges, roots, stale, x) {
        var p :| IsPath(edges, roots, {}, p) && p[|p| - 1] == x;
        PathKept(edges, roots, stale, p, |p| - 1);
      }
    }
    if forall x :: Reachable(edges, roots, x) ==> Kept(edges, roots, stale, x) {
      forall s, y | s in stale && Reachable(edges, roots, s) && y in edges(s) ensures Kept(edges, roots, stale, y) {
        ExtendReached(edges, roots, {}, s, y);
        assert Reachable(edges, roots, y);
      }
    }
  }

  /** A marker that starts empty, or with marks that lead nowhere else, hides nothing. */
  lemma NothingHidden(edges: Edges, roots: seq<Item>, stale: set<Item>)
    requires LeadInto(edges, stale, stale)
    ensures Harmless(edges, roots, stale)
  {
    forall s, y | s in stale && y in edges(s) ensures y in stale { LeadStep(edges, stale, stale, s, y); }
  }

  /** Marks left by a run that failed half way can hide a reachable item: 1 was marked and not
      followed, so 2 is collected. */
  lemma StaleMarksHide(edges: Edges)
    requires edges(0) == [1] && edges(1) == [2] && edges(2) == []
    ensures Reachable(edges, [0], 2) && !Kept(edges, [0], {1}, 2) && !Harmless(edges, [0], {1})
  {
    RootReached(edges, [0], {}, 0);
    ExtendReached(edges, [0], {}, 0, 1);
    ExtendReached(edges, [0], {}, 1, 2);
    assert Through(edges, [0], {1}, {0, 1});
    ReachedMarked(edges, [0], {1}, {0, 1});
    assert 1 in {1} && 2 in edges(1);
  }

  // ---- The collector ------------------------------------------------------------------------------

  datatype Component = World | Marker | Roots | Sweeper | ItemEnumerator | Deleter

  datatype Outcome = Nil | Missing(component: Component) | StopError | MarkFailure | SweepFailure | StartError

  datatype Event = Stop(ok: bool) | Delete(item: Item) | Start

  /** The components that Collect looks for before this one. */
  ghost function LookedForBefore(c: Component): set<Component> {
    match c
    case World => {}
    case Marker => {World}
    case Roots => {World, Marker}
    case Sweeper => {World, Marker, Roots}
    case ItemEnumerator => {World, Marker, Roots, Sweeper}
    case Deleter => {World, Marker, Roots, Sweeper, ItemEnumerator}
  }

  ghost predicate FirstMissing(present: set<Component>, c: Component) {
    c !in present && LookedForBefore(c) <= present
  }

  /** The events after `before` are deletions, of items that are not in `marked`. */
  ghost predicate OnlyDeletes(before: seq<Event>, log: seq<Event>, marked: set<Item>) {
    && |before| <= |log| && log[..|before|] == before
    && forall i :: |before| <= i < |log| ==> log[i].Delete? && log[i].item !in marked
  }

  /** How a call to a component goes wrong: it returns an error, though it may have done its work, and
      an enumerator sends only so many items. */
  datatype Fault = Fault(fails: bool, done: bool, sent: nat)

  /** None of the calls from `first` up to `end` fails. */
  ghost predicate Smooth(faults: nat -> Fault, first: nat, end: nat) {
    forall k: nat :: first <= k < end ==> !faults(k).fails
  }

  /** The marker, the store and the world, and what the enumerators send when they do not fail. Any
      call to a component can fail: `faults` says which do, in the order in which they are made. */
  class Collector {
    const present: set<Component>
    const edges: Edges
    const roots: seq<Item>
    const sweep: seq<Item>
    ghost const universe: set<Item>
    const faults: nat -> Fault
    var calls: nat
    var marked: set<Item>
    var store: set<Item>
    var log: seq<Event>

    /** The graph is finite. */
    ghost predicate Valid() {
      && (forall x :: x in roots ==> x in universe)
      && LeadInto(edges, universe, universe)
    }

    constructor (present: set<Component>, edges: Edges, roots: seq<Item>, sweep: seq<Item>, ghost universe: set<Item>, faults: nat -> Fault, marked: set<Item>, store: set<Item>)
      requires LeadInto(edges, universe, universe) && forall x :: x in roots ==> x in universe
      ensures Valid() && this.present == present && this.edges == edges && this.roots == roots && this.sweep == sweep && this.faults == faults
      ensures this.marked == marked && this.store == store && log == [] && calls == 0
    {
      this.present, this.edges, this.roots, this.sweep, this.universe, this.faults := present, edges, roots, sweep, universe, faults;
      this.marked, this.store, log, calls := marked, store, [], 0;
    }

    /** How the next call to a component goes. */
    method Next() returns (f: Fault)
      modifies this`calls
      ensures f == faults(old(calls)) && calls == old(calls) + 1
      ensures !f.fails <==> Smooth(faults, old(calls), calls)
    {
      f := faults(calls);
      calls := calls + 1;
    }

    method Mark(it: Item) returns (ok: bool)
      modifies this`marked, this`calls
      ensures calls == old(calls) + 1 && (ok <==> Smooth(faults, old(calls), calls))
      ensures ok ==> marked == old(marked) + {it}
      ensures marked == old(marked) || marked == old(marked) + {it}
    {
      var f := Next();
      ok := !f.fails;
      if ok || f.done {
        marked := marked + {it};
      }
    }

    method IsMarked(it: Item) returns (yes: bool, ok: bool)
      modifies this`calls
      ensures calls == old(calls) + 1 && (ok <==> Smooth(faults, old(calls), calls))
      ensures ok ==> yes == (it in marked)
    {
      var f := Next();
      ok := !f.fails;
      yes := ok && it in marked;
    }

    method DeleteItem(it: Item) returns (ok: bool)
      modifies this`store, this`log, this`calls
      ensures calls == old(calls) + 1 && (ok <==> Smooth(faults, old(calls), calls))
      ensures ok ==> store == old(store) - {it}
      ensures store == old(store) || store == old(store) - {it}
      ensures log == old(log) + [Delete(it)]
    {
      var f := Next();
      ok := !f.fails;
      log := log + [Delete(it)];
      if ok || f.done {
        store := store - {it};
      }
    }

    /** What an enumerator sends before it closes its channel. */
    method Enumerate(items: seq<Item>) returns (sent: seq<Item>, ok: bool)
      modifies this`calls
      ensures calls == old(calls) + 1 && (ok <==> Smooth(faults, old(calls), calls))
      ensures sent <= items && (ok ==> sent == items)
    {
      var f := Next();
      ok := !f.fails;
      sent := if ok || f.sent > |items| then items else items[..f.sent];
    }

    /** The items newly marked since `before`. */
    ghost function New(before: set<Item>): set<Item>
      reads this
    {
      marked - before
    }

    /** markItem: a depth-first search that stops at marked items, except at a root. */
    method MarkItem(it: Item, isRoot: bool, ghost stale: set<Item>) returns (ok: bool)
      requires Valid() && stale <= marked && it in universe
      requires isRoot ==> it in roots
      requires !isRoot && it !in stale ==> ReachedClear(edges, roots, stale, it)
      requires forall x :: x in marked ==> Kept(edges, roots, stale, x)
      modifies this`marked, this`calls
      ensures old(marked) <= marked && old(calls) <= calls && (ok <==> Smooth(faults, old(calls), calls))
      ensures forall x :: x in marked ==> Kept(edges, roots, stale, x)
      ensures ok ==> it in marked && LeadInto(edges, New(old(marked)), marked)
      ensures ok && isRoot ==> LeadInto(edges, {it}, marked)
      decreases universe - marked, isRoot
    {
      if !isRoot {
        var yes;
        yes, ok := IsMarked(it);
        if !ok {
          return false;
        }
        if yes {
          return true;
        }
      } else {
        RootReached(edges, roots, stale, it);
      }
      ok := Mark(it);
      if !ok {
        return false;
      }
      var sent, sentAll := Enumerate(edges(it));
      ghost var start := marked;
      for i := 0 to |sent|
        invariant start <= marked && old(calls) <= calls && (sentAll <==> Smooth(faults, old(calls), calls))
        invariant forall x :: x in marked ==> Kept(edges, roots, stale, x)
        invariant forall j :: 0 <= j < i ==> sent[j] in marked
        invariant LeadInto(edges, New(start), marked)
      {
        assert sent[i] in edges(it);
        if sent[i] !in stale {
          ExtendReached(edges, roots, stale, it, sent[i]);
        }
        ghost var before := marked;
        ok := MarkItem(sent[i], false, stale);
        if !ok {
          return false;
        }
        LeadMore(edges, start, before, marked);
      }
      if !sentAll {
        return false;
      }
      assert LeadInto(edges, {it}, marked);
      LeadJoin(edges, New(start), {it}, marked);
    }

    /** The mark phase: on success exactly what can be reached clear of the stale marks is marked,
        and the stale marks still are. */
    method MarkAll() returns (ok: bool)
      requires Valid()
      modifies this`marked, this`calls
      ensures old(calls) <= calls && (ok <==> Smooth(faults, old(calls), calls))
      ensures ok ==> forall x :: x in marked <==> Kept(edges, roots, old(marked), x)
    {
      ghost var stale := marked;
      var sent, sentAll := Enumerate(roots);
      for i := 0 to |sent|
        invariant stale <= marked && old(calls) <= calls && (sentAll <==> Smooth(faults, old(calls), calls))
        invariant forall x :: x in marked ==> Kept(edges, roots, stale, x)
        invariant LeadInto(edges, New(stale), marked)
        invariant forall j :: 0 <= j < i ==> sent[j] in marked && LeadInto(edges, {sent[j]}, marked)
      {
        ghost var before := marked;
        ok := MarkItem(sent[i], true, stale);
        if !ok {
          return false;
        }
        LeadMore(edges, stale, before, marked);
        forall j | 0 <= j < i ensures LeadInto(edges, {sent[j]}, marked) { LeadWiden(edges, {sent[j]}, before, marked); }
      }
      if !sentAll {
        return false;
      }
      ok := true;
      ReachedMarked(edges, roots, stale, marked);
    }

    /** The sweep phase. */
    method SweepAll() returns (ok: bool)
      modifies this`store, this`log, this`calls
      ensures old(calls) <= calls && (ok <==> Smooth(faults, old(calls), calls))
      ensures OnlyDeletes(old(log), log, marked)
      ensures store <= old(store) && forall x :: x in old(store) && x in marked ==> x in store
      ensures ok ==> forall x :: x in store <==> x in old(store) && (x in sweep ==> x in marked)
    {
      var sent, sentAll := Enumerate(sweep);
      for i := 0 to |sent|
        invariant OnlyDeletes(old(log), log, marked) && old(calls) <= calls && (sentAll <==> Smooth(faults, old(calls), calls))
        invariant store <= old(store)
        invariant forall x :: x in old(store) && x !in store ==> x !in marked && x in sweep
        invariant forall j :: 0 <= j < i ==> sent[j] in marked || sent[j] !in store
      {
        var yes;
        yes, ok := IsMarked(sent[i]);
        if !ok {
          return false;
        }
        if !yes {
          ok := DeleteItem(sent[i]);
          if !ok {
            return false;
          }
        }
      }
      if !sentAll {
        return false;
      }
      ok := true;
    }

    /** Collect between a successful Stop and the deferred Start. */
    method MarkAndSweep() returns (out: Outcome)
      requires Valid()
      modifies this`marked, this`store, this`log, this`calls
      ensures out in {Nil, MarkFailure, SweepFailure}
      ensures old(calls) <= calls && (out == Nil <==> Smooth(faults, old(calls), calls))
      ensures store <= old(store) && forall x :: x in old(store) && Kept(edges, roots, old(marked), x) ==> x in store
      ensures out == Nil ==> forall x :: x in store <==> x in old(store) && (x in sweep ==> Kept(edges, roots, old(marked), x))
      ensures OnlyDeletes(old(log), log, {})
      ensures forall i :: |old(log)| <= i < |log| ==> !Kept(edges, roots, old(marked), log[i].item)
    {
      var ok := MarkAll();
      if !ok {
        return MarkFailure;
      }
      ok := SweepAll();
      out := if ok then Nil else SweepFailure;
    }

    /** The checks at the start of Collect. */
    method FirstNil() returns (out: Outcome)
      ensures out == Nil || out.Missing?
      ensures out.Missing? ==> FirstMissing(present, out.component)
      ensures out == Nil ==> forall c: Component :: c in present
    {
      if World !in present { return Missing(World); }
      if Marker !in present { return Missing(Marker); }
      if Roots !in present { return Missing(Roots); }
      if Sweeper !in present { return Missing(Sweeper); }
      if ItemEnumerator !in present { return Missing(ItemEnumerator); }
      if Deleter !in present { return Missing(Deleter); }
      forall c: Component ensures c in present {
        match c
        case World => case Marker => case Roots => case Sweeper => case ItemEnumerator => case Deleter =>
      }
      out := Nil;
    }

    /** Collect. Whatever fails, an item that is reachable, or was marked before, is not deleted,
        deletions happen only while the world is stopped, and the world is started again once;
        success means that of the items swept only such items are left, and comes exactly when all
        components are there and no call to one fails. */
    method Collect() returns (out: Outcome)
      requires Valid()
      modifies this
      ensures out.Missing? ==> FirstMissing(present, out.component) && log == old(log) && store == old(store) && marked == old(marked)
      ensures out == StopError ==> log == old(log) + [Stop(false)] && store == old(store) && marked == old(marked)
      ensures !out.Missing? ==> forall c: Component :: c in present
      ensures old(calls) <= calls && (out == Nil <==> !out.Missing? && Smooth(faults, old(calls), calls))
      ensures out == StopError <==> !out.Missing? && faults(old(calls)).fails
      ensures !out.Missing? && out != StopError ==> exists middle :: log == old(log) + [Stop(true)] + middle + [Start] && AllDeletes(middle, edges, roots, old(marked))
      ensures store <= old(store) && forall x :: x in old(store) && Kept(edges, roots, old(marked), x) ==> x in store
      ensures out == Nil || out == StartError ==>
                forall x :: x in store <==> x in old(store) && (x in sweep ==> Kept(edges, roots, old(marked), x))
    {
      out := FirstNil();
      if out.Missing? {
        return;
      }
      var stop := Next();
      log := log + [Stop(!stop.fails)];
      if stop.fails {
        return StopError;
      }
      ghost var before := log;
      out := MarkAndSweep();
      ghost var middle := log[|before|..];
      assert log == before + middle;
      log := log + [Start];
      var start := Next();
      if out == Nil && start.fails {
        out := StartError;
      }
      assert AllDeletes(middle, edges, roots, old(marked));
    }
  }

  /** Deletions, and none of an item to keep. */
  ghost predicate AllDeletes(events: seq<Event>, edges: Edges, roots: seq<Item>, stale: set<Item>) {
    forall i :: 0 <= i < |events| ==> events[i].Delete? && !Kept(edges, roots, stale, events[i].item)
  }

  lemma LeadJoin(edges: Edges, a: set<Item>, b: set<Item>, into: set<Item>)
    requires LeadInto(edges, a, into) && LeadInto(edges, b, into)
    ensures forall c :: c <= a + b ==> LeadInto(edges, c, into)
  {
  }

  lemma LeadWiden(edges: Edges, a: set<Item>, into: set<Item>, wider: set<Item>)
    requires LeadInto(edges, a, into) && into <= wider
    ensures LeadInto(edges, a, wider)
  {
  }

  lemma LeadMore(edges: Edges, start: set<Item>, before: set<Item>, marked: set<Item>)
    requires before <= marked && LeadInto(edges, before - start, before) && LeadInto(edges, marked - before, marked)
    ensures LeadInto(edges, marked - start, marked)
  {
    LeadWiden(edges, before - start, before, marked);
  }

  /** A collection with marks left over, over a store that holds every reachable item and is swept
      as a whole: if the marks are harmless no run loses a reachable item; and every successful run
      loses one if they are not. */
  method CollectStale(present: set<Component>, edges: Edges, roots: seq<Item>, sweep: seq<Item>, ghost universe: set<Item>, faults: nat -> Fault, stale: set<Item>, store: set<Item>)
    returns (out: Outcome, left: set<Item>)
    requires LeadInto(edges, universe, universe) && forall x :: x in roots ==> x in universe
    requires forall x :: x in store ==> x in sweep
    requires forall x :: Reachable(edges, roots, x) ==> x in store
    ensures Harmless(edges, roots, stale) ==> forall x :: Reachable(edges, roots, x) ==> x in left
    ensures out == Nil || out == StartError ==>
              ((forall x :: Reachable(edges, roots, x) ==> x in left) <==> Harmless(edges, roots, stale))
  {
    var c := new Collector(present, edges, roots, sweep, universe, faults, stale, store);
    out := c.Collect();
    left := c.store;
    NothingHiddenIff(edges, roots, stale);
  }

  /** From an empty marker, and a sweep over the whole store, a successful collection leaves
      exactly the reachable items and a failed one leaves at least those. */
  method CollectFresh(present: set<Component>, edges: Edges, roots: seq<Item>, sweep: seq<Item>, ghost universe: set<Item>, faults: nat -> Fault, store: set<Item>)
    returns (out: Outcome, left: set<Item>)
    requires LeadInto(edges, universe, universe) && forall x :: x in roots ==> x in universe
    requires forall x :: x in store ==> x in sweep
    ensures left <= store && forall x :: x in store && Reachable(edges, roots, x) ==> x in left
    ensures out == Nil || out == StartError ==> forall x :: x in left <==> x in store && Reachable(edges, roots, x)
    ensures out.Missing? <==> exists c: Component :: c !in present
    ensures (forall c: Component :: c in present) && (forall k: nat :: !faults(k).fails) ==> out == Nil
  {
    var c := new Collector(present, edges, roots, sweep, universe, faults, {}, store);
    out := c.Collect();
    left := c.store;
    assert forall x :: Kept(edges, roots, {}, x) <==> Reachable(edges, roots, x);
  }
}
