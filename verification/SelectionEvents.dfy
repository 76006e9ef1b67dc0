/** Selections and their start and end events, merged by offset: the merger of
    website/format.go. */
module SelectionEvents {

  /** No offset from here on takes part in the merge. */
  const INFINITY := 2_000_000_000

  datatype Seg = Seg(a: int, b: int)

  /** A Selection function, as the segments it returns before it returns nil for good; a nil
      Selection is the empty one. */
  type Selection = seq<Seg>

  datatype Event = Event(offs: int, start: bool)

  /** Consecutive non-overlapping segments [a, b). */
  ghost predicate WellFormed(s: Selection) {
    && (forall i :: 0 <= i < |s| ==> 0 <= s[i].a <= s[i].b)
    && (forall i, j :: 0 <= i < j < |s| ==> s[i].b <= s[j].a)
  }

  /** The events of a selection in order, up to the first at INFINITY or beyond. */
  ghost function Events(s: Selection): seq<Event>
    decreases |s|, 0
  {
    if s == [] then [] else EventsFrom(s[0], s[1..])
  }

  /** The events still to come when `cur` is the current segment of the merger and `rest` what
      the selection has yet to return. A consumed offset is INFINITY. */
  ghost function EventsFrom(cur: Seg, rest: Selection): seq<Event>
    decreases |rest|, 1
  {
    var tail := if cur.b < INFINITY then [Event(cur.b, false)] + Events(rest) else [];
    if cur.a < INFINITY then [Event(cur.a, true)] + tail else tail
  }

  ghost predicate Ordered(e: seq<Event>) {
    forall i, j :: 0 <= i < j < |e| ==> e[i].offs <= e[j].offs
  }

  /** Starts and ends alternate, a start first. */
  ghost predicate Alternating(e: seq<Event>) {
    forall i :: 0 <= i < |e| ==> (e[i].start <==> i % 2 == 0)
  }

  lemma {:induction false} EventsShape(s: Selection)
    requires WellFormed(s)
    ensures Ordered(Events(s)) && Alternating(Events(s))
    ensures forall i :: 0 <= i < |Events(s)| ==> s[0].a <= Events(s)[i].offs < INFINITY
  {
    if s != [] {
      EventsShape(s[1..]);
      var (e, t) := (Events(s), Events(s[1..]));
      if s[0].a < INFINITY && s[0].b < INFINITY {
        assert e == [Event(s[0].a, true), Event(s[0].b, false)] + t;
        assert forall i :: 2 <= i < |e| ==> e[i] == t[i - 2];
        assert t != [] ==> s[0].b <= s[1..][0].a;
      }
    }
  }

  ghost function UpTo(e: seq<Event>, p: int): (n: nat)
    ensures n <= |e|
  {
    if e == [] || e[0].offs > p then 0 else 1 + UpTo(e[1..], p)
  }

  /** A selection is on at p when an odd number of its events lies at or before p. */
  ghost predicate OnAt(e: seq<Event>, p: int) { UpTo(e, p) % 2 == 1 }

  lemma {:induction false} UpToIs(e: seq<Event>, p: int, n: nat)
    requires n <= |e|
    requires forall i :: 0 <= i < n ==> e[i].offs <= p
    requires n < |e| ==> e[n].offs > p
    ensures UpTo(e, p) == n
  {
    if n > 0 { UpToIs(e[1..], p, n - 1); }
  }

  /** p lies in a segment. */
  ghost predicate Covers(s: Selection, p: int) {
    exists i :: 0 <= i < |s| && s[i].a <= p < s[i].b
  }

  /** Being on is lying in a segment, for every offset that takes part in the merge. */
  lemma {:induction false} OnIsCovered(s: Selection, p: int)
    requires WellFormed(s) && p < INFINITY
    ensures OnAt(Events(s), p) <==> Covers(s, p)
  {
    if s != [] {
      OnIsCovered(s[1..], p);
      CoversHead(s, p);
      EventsHead(s);
      if s[0].b < INFINITY {
        UpToTwo([Event(s[0].a, true), Event(s[0].b, false)], Events(s[1..]), p);
      } else {
        UpToIs(Events(s), p, if s[0].a <= p then 1 else 0);
      }
      if p < s[0].b { NotBefore(s, p); }
    }
  }

  lemma CoversHead(s: Selection, p: int)
    requires s != []
    ensures Covers(s, p) <==> s[0].a <= p < s[0].b || Covers(s[1..], p)
  {
    if Covers(s[1..], p) {
      var i :| 0 <= i < |s[1..]| && s[1..][i].a <= p < s[1..][i].b;
      assert s[i + 1].a <= p < s[i + 1].b;
    }
    if Covers(s, p) {
      var i :| 0 <= i < |s| && s[i].a <= p < s[i].b;
      if i > 0 { assert s[1..][i - 1].a <= p < s[1..][i - 1].b; }
    }
  }

  lemma NotBefore(s: Selection, p: int)
    requires WellFormed(s) && s != [] && p < s[0].b
    ensures !Covers(s[1..], p)
  {
  }

  /** The merger sees a segment start and not end. */
  ghost predicate Straddles(s: Selection) {
    exists i :: 0 <= i < |s| && s[i].a < INFINITY <= s[i].b
  }

  lemma StraddlesHead(s: Selection)
    requires WellFormed(s) && s != []
    ensures Straddles(s) <==> s[0].a < INFINITY <= s[0].b || (s[0].b < INFINITY && Straddles(s[1..]))
  {
    if i :| 0 <= i < |s| && s[i].a < INFINITY <= s[i].b {
      if i > 0 {
        assert s[1..][i - 1].a < INFINITY <= s[1..][i - 1].b;
        assert s[0].b <= s[i].a;
      }
    }
    if i :| 0 <= i < |s[1..]| && s[1..][i].a < INFINITY <= s[1..][i].b { assert s[i + 1] == s[1..][i]; }
  }

  /** From INFINITY on a selection stays as the last event that is seen leaves it. */
  lemma {:induction false} OnBeyond(s: Selection, p: int)
    requires WellFormed(s) && p >= INFINITY
    ensures OnAt(Events(s), p) <==> Straddles(s)
  {
    if s != [] {
      OnBeyond(s[1..], p);
      StraddlesHead(s);
      EventsHead(s);
      if s[0].b < INFINITY {
        UpToTwo([Event(s[0].a, true), Event(s[0].b, false)], Events(s[1..]), p);
      } else {
        UpToIs(Events(s), p, if s[0].a < INFINITY then 1 else 0);
      }
    }
  }

  /** Being on is being covered at p. */
  ghost predicate SeenAt(s: Selection, p: int) { p < INFINITY || (Straddles(s) <==> Covers(s, p)) }

  /** At every offset: a selection is on where it covers exactly when p is below INFINITY, or the
      segment that straddles INFINITY, if there is one, or none, agrees with p. */
  lemma OnIff(s: Selection, p: int)
    requires WellFormed(s)
    ensures OnAt(Events(s), p) <==> if p < INFINITY then Covers(s, p) else Straddles(s)
    ensures (OnAt(Events(s), p) <==> Covers(s, p)) <==> SeenAt(s, p)
  {
    if p < INFINITY { OnIsCovered(s, p); } else { OnBeyond(s, p); }
  }

  /** From INFINITY on the two can differ: here a segment the merger never sees. */
  lemma BeyondInfinity()
    ensures var s := [Seg(2_000_000_000, 2_000_000_001)]; WellFormed(s) && Covers(s, 2_000_000_000) && !OnAt(Events(s), 2_000_000_000)
  {
    var s := [Seg(INFINITY, INFINITY + 1)];
    assert Events(s) == [];
    assert s[0].a <= INFINITY < s[0].b;
  }

  // ---- Starts and ends ------------------------------------------------------------------------------

  /** All starts and ends, wherever they lie. */
  ghost function Boundaries(s: Selection): seq<Event> {
    if s == [] then [] else [Event(s[0].a, true), Event(s[0].b, false)] + Boundaries(s[1..])
  }

  lemma {:induction false} BoundariesOrdered(s: Selection)
    requires WellFormed(s)
    ensures Ordered(Boundaries(s)) && forall i :: 0 <= i < |Boundaries(s)| ==> s[0].a <= Boundaries(s)[i].offs
  {
    if s != [] {
      BoundariesOrdered(s[1..]);
      var (b, t) := (Boundaries(s), Boundaries(s[1..]));
      assert forall i :: 2 <= i < |b| ==> b[i] == t[i - 2];
      assert t != [] ==> s[0].b <= s[1..][0].a;
    }
  }

  lemma {:induction false} UpToFacts(e: seq<Event>, p: int)
    ensures forall i :: 0 <= i < UpTo(e, p) ==> e[i].offs <= p
    ensures UpTo(e, p) < |e| ==> e[UpTo(e, p)].offs > p
  {
    if e != [] && e[0].offs <= p {
      UpToFacts(e[1..], p);
      assert forall i :: 1 <= i < UpTo(e, p) ==> e[i] == e[1..][i - 1];
    }
  }

  lemma TwoMore(two: seq<Event>, t: seq<Event>, k: nat)
    requires |two| == 2 && k <= |t|
    ensures (two + t)[..2 + k] == two + t[..k]
  {
  }

  lemma EventsHead(s: Selection)
    requires WellFormed(s) && s != []
    ensures var two := [Event(s[0].a, true), Event(s[0].b, false)];
            Events(s) == if s[0].b < INFINITY then two + Events(s[1..]) else if s[0].a < INFINITY then two[..1] else []
  {
  }

  lemma {:induction false} EventsAreBoundaries(s: Selection)
    requires WellFormed(s)
    ensures Events(s) == Boundaries(s)[..UpTo(Boundaries(s), INFINITY - 1)]
  {
    if s != [] {
      EventsAreBoundaries(s[1..]);
      EventsHead(s);
      BoundariesCut([Event(s[0].a, true), Event(s[0].b, false)], Boundaries(s[1..]), INFINITY - 1);
    }
  }

  lemma BoundariesCut(two: seq<Event>, t: seq<Event>, p: int)
    requires |two| == 2 && two[0].offs <= two[1].offs
    ensures (two + t)[..UpTo(two + t, p)] ==
            if two[1].offs <= p then two + t[..UpTo(t, p)] else if two[0].offs <= p then two[..1] else []
  {
    UpToTwo(two, t, p);
    TwoMore(two, t, UpTo(t, p));
  }

  lemma UpToTwo(two: seq<Event>, t: seq<Event>, p: int)
    requires |two| == 2 && two[0].offs <= two[1].offs
    ensures UpTo(two + t, p) == if two[1].offs <= p then 2 + UpTo(t, p) else if two[0].offs <= p then 1 else 0
  {
    var b := two + t;
    assert b[1..][1..] == t && b[1..][0] == two[1];
    assert UpTo(b[1..], p) == if two[1].offs <= p then 1 + UpTo(t, p) else 0;
  }

  lemma UpToPrefix(e: seq<Event>, k: nat, p: int)
    requires k <= |e|
    ensures UpTo(e[..k], p) == if UpTo(e, p) < k then UpTo(e, p) else k
  {
    UpToFacts(e, p);
    UpToIs(e[..k], p, if UpTo(e, p) < k then UpTo(e, p) else k);
  }

  /** The events up to p are all starts and ends up to p exactly when none of these lies at INFINITY
      or beyond. */
  lemma EventsUpTo(s: Selection, p: int)
    requires WellFormed(s)
    ensures var b := Boundaries(s);
            Events(s)[..UpTo(Events(s), p)] == b[..UpTo(b, p)] <==>
            forall i :: 0 <= i < |b| ==> !(INFINITY <= b[i].offs <= p)
  {
    var b := Boundaries(s);
    var (k, n) := (UpTo(b, INFINITY - 1), UpTo(b, p));
    EventsAreBoundaries(s);
    UpToPrefix(b, k, p);
    UpToFacts(b, INFINITY - 1);
    UpToFacts(b, p);
    BoundariesOrdered(s);
    var m := UpTo(Events(s), p);
    assert Events(s)[..m] == b[..m];
    assert |b[..m]| == m && |b[..n]| == n;
  }

  // ---- The merger -------------------------------------------------------------------------------

  /** index has the least next offset, and is the first to have it. */
  ghost predicate IsNext(pending: seq<seq<Event>>, index: int) {
    && 0 <= index < |pending| && pending[index] != []
    && (forall j :: 0 <= j < |pending| && pending[j] != [] ==> pending[index][0].offs <= pending[j][0].offs)
    && (forall j :: 0 <= j < index && pending[j] != [] ==> pending[index][0].offs < pending[j][0].offs)
  }

  lemma Consume(cur: Seg, rest: Selection)
    requires EventsFrom(cur, rest) != []
    ensures var e := EventsFrom(cur, rest);
            if cur.a < INFINITY then EventsFrom(cur.(a := INFINITY), rest) == e[1..]
            else if rest == [] then e[1..] == [] else e[1..] == EventsFrom(rest[0], rest[1..])
  {
    var e := EventsFrom(cur, rest);
    if cur.a >= INFINITY {
      assert e == [Event(cur.b, false)] + Events(rest);
      assert e[1..] == Events(rest);
    }
  }

  ghost function PendingOf(segments: seq<Seg>, selections: seq<Selection>): (p: seq<seq<Event>>)
    requires |selections| == |segments|
    ensures |p| == |segments| && forall i :: 0 <= i < |p| ==> p[i] == EventsFrom(segments[i], selections[i])
  {
    seq(|segments|, i requires 0 <= i < |segments| => EventsFrom(segments[i], selections[i]))
  }

  class Merger {
    var selections: seq<Selection>   // what each Selection has yet to return
    var segments: seq<Seg>           // the current segment of each

    ghost predicate Valid()
      reads this
    {
      && |selections| == |segments|
      && (forall i :: 0 <= i < |segments| ==> segments[i].a <= segments[i].b || segments[i].a >= INFINITY)
      && (forall i :: 0 <= i < |selections| ==> WellFormed(selections[i]))
    }

    ghost function Pending(): (p: seq<seq<Event>>)
      requires |selections| == |segments|
      reads this
    {
      PendingOf(segments, selections)
    }

    constructor (sels: seq<Selection>)
      requires forall i :: 0 <= i < |sels| ==> WellFormed(sels[i])
      ensures Valid() && |selections| == |sels|
      ensures forall i :: 0 <= i < |sels| ==> Pending()[i] == Events(sels[i])
    {
      segments := seq(|sels|, i requires 0 <= i < |sels| => if sels[i] == [] then Seg(INFINITY, INFINITY) else sels[i][0]);
      selections := seq(|sels|, i requires 0 <= i < |sels| => if sels[i] == [] then [] else sels[i][1..]);
    }

    /** merger.next: consumes the next event of all selections. */
    method Next() returns (index: int, offs: int, start: bool)
      requires Valid()
      modifies this
      ensures Valid() && |selections| == old(|selections|)
      ensures index < 0 ==> (forall i :: 0 <= i < |selections| ==> old(Pending())[i] == []) && Pending() == old(Pending())
      ensures index >= 0 ==>
                && IsNext(old(Pending()), index)
                && Event(offs, start) == old(Pending())[index][0]
                && Pending() == old(Pending())[index := old(Pending())[index][1..]]
    {
      offs, index, start := INFINITY, -1, false;
      for i := 0 to |segments|
        invariant -1 <= index < i
        invariant index == -1 ==> offs == INFINITY && forall j :: 0 <= j < i ==> Pending()[j] == []
        invariant index >= 0 ==>
                    && Pending()[index] != [] && Event(offs, start) == Pending()[index][0] && offs < INFINITY
                    && (forall j :: 0 <= j < i && Pending()[j] != [] ==> offs <= Pending()[j][0].offs)
                    && (forall j :: 0 <= j < index && Pending()[j] != [] ==> offs < Pending()[j][0].offs)
      {
        var seg := segments[i];
        if seg.a < offs {
          offs, index, start := seg.a, i, true;
        } else if seg.b < offs {
          offs, index, start := seg.b, i, false;
        }
      }
      if index < 0 {
        return;
      }
      ghost var before := Pending();
      Consume(segments[index], selections[index]);
      segments := segments[index := segments[index].(a := INFINITY)];
      if start {
        assert Pending() == before[index := before[index][1..]];
        return;
      }
      segments := segments[index := Seg(INFINITY, INFINITY)];
      if selections[index] == [] {
        assert Pending() == before[index := before[index][1..]];
        return;
      }
      segments := segments[index := selections[index][0]];
      selections := selections[index := selections[index][1..]];
      assert Pending() == before[index := before[index][1..]];
    }
  }
}
