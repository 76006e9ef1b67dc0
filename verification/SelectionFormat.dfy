/** FormatSelections of website/format.go: text cut into chunks by the selections that cover
    it, with link tags in between, through a delayed segment that joins equal neighbours. */
module SelectionFormat {
  import opened SelectionEvents

  /** What is written: a call of the segment writer or of the link writer. */
  datatype Out = Chunk(text: string, sel: set<nat>) | Tag(offs: int, start: bool)

  function Text(out: seq<Out>): string {
    if out == [] then ""
    else Text(out[..|out| - 1]) + (if out[|out| - 1].Chunk? then out[|out| - 1].text else "")
  }

  function Tags(out: seq<Out>): seq<Event> {
    if out == [] then []
    else Tags(out[..|out| - 1]) + (if out[|out| - 1].Tag? then [Event(out[|out| - 1].offs, out[|out| - 1].start)] else [])
  }

  /** The bits set at q: the first n selections that are on there, as far as they have a bit. `word`
      is the number of bits of a Go int; a bit beyond it is shifted out and lost. */
  ghost function Shown(events: seq<seq<Event>>, n: nat, word: nat, q: int): set<nat>
    requires n <= |events|
  {
    set i: nat | i < n && i < word && OnAt(events[i], q)
  }

  /** From `from` up to `to` the bits are these. */
  ghost predicate Steady(events: seq<seq<Event>>, n: nat, word: nat, from: int, to: int, bits: set<nat>)
    requires n <= |events|
  {
    forall q :: from <= q < to ==> Shown(events, n, word, q) == bits
  }

  lemma SteadyJoin(events: seq<seq<Event>>, n: nat, word: nat, from: int, via: int, to: int, bits: set<nat>)
    requires n <= |events| && Steady(events, n, word, from, via, bits) && Steady(events, n, word, via, to, bits)
    ensures Steady(events, n, word, from, to, bits)
  {
  }

  /** Item k of the output: a chunk carries the bits of each of its characters, a tag stands at
      its own offset. */
  ghost predicate ItemOK(out: seq<Out>, k: int, events: seq<seq<Event>>, n: nat, word: nat)
    requires 0 <= k < |out| && n <= |events|
  {
    var at := |Text(out[..k])|;
    match out[k]
    case Chunk(t, sel) => t != "" && Steady(events, n, word, at, at + |t|, sel)
    case Tag(offs, _) => at == offs
  }

  ghost predicate OutOK(out: seq<Out>, events: seq<seq<Event>>, n: nat, word: nat)
    requires n <= |events|
  {
    forall k :: 0 <= k < |out| ==> ItemOK(out, k, events, n, word)
  }

  /** Chunks next to each other differ in their selections. */
  ghost predicate Separated(out: seq<Out>) {
    forall k :: 0 < k < |out| && out[k - 1].Chunk? && out[k].Chunk? ==> out[k - 1].sel != out[k].sel
  }

  lemma AddItem(out: seq<Out>, x: Out, events: seq<seq<Event>>, n: nat, word: nat)
    requires n <= |events| && OutOK(out, events, n, word) && Separated(out)
    requires match x
             case Chunk(t, sel) => t != "" && Steady(events, n, word, |Text(out)|, |Text(out)| + |t|, sel)
             case Tag(offs, _) => offs == |Text(out)|
    requires x.Chunk? && out != [] && out[|out| - 1].Chunk? ==> out[|out| - 1].sel != x.sel
    ensures OutOK(out + [x], events, n, word) && Separated(out + [x])
    ensures Text(out + [x]) == Text(out) + (if x.Chunk? then x.text else "")
    ensures Tags(out + [x]) == Tags(out) + (if x.Tag? then [Event(x.offs, x.start)] else [])
  {
    TextSnoc(out, x);
    forall k | 0 <= k < |out + [x]| ensures ItemOK(out + [x], k, events, n, word) {
      if k < |out| { KeepItem(out, x, k, events, n, word); } else { assert (out + [x])[..k] == out; }
    }
  }

  lemma TextSnoc(out: seq<Out>, x: Out)
    ensures Text(out + [x]) == Text(out) + (if x.Chunk? then x.text else "")
    ensures Tags(out + [x]) == Tags(out) + (if x.Tag? then [Event(x.offs, x.start)] else [])
  {
    assert (out + [x])[..|out|] == out;
  }

  lemma KeepItem(out: seq<Out>, x: Out, k: nat, events: seq<seq<Event>>, n: nat, word: nat)
    requires k < |out| && n <= |events| && ItemOK(out, k, events, n, word)
    ensures ItemOK(out + [x], k, events, n, word)
  {
    assert (out + [x])[..k] == out[..k];
  }

  /** The variables shared by the closures flush and segment. */
  class Formatter {
    const text: string
    const word: nat
    var out: seq<Out>
    var bitset: set<nat>
    var lastOffs: int
    var begin: int       // last.begin
    var end: int         // last.end
    var bits: set<nat>   // last.bitset

    constructor (text: string, word: nat)
      ensures this.text == text && this.word == word && out == [] && bitset == {} && lastOffs == 0 && begin == 0 && end == 0
    {
      this.text, this.word := text, word;
      out, bitset, lastOffs, begin, end, bits := [], {}, 0, 0, 0, {};
    }

    /** Everything before last.begin is written; the delayed segment has one selection set, and
        may not be joined to the chunk in front of it. */
    ghost predicate Valid(events: seq<seq<Event>>, n: nat)
      requires n <= |events|
      reads this`out, this`begin, this`end, this`bits
    {
      var inBounds := 0 <= begin <= end <= |text|;
      var written := inBounds && Text(out) == text[..begin] && OutOK(out, events, n, word) && Separated(out);
      var delayed := Steady(events, n, word, begin, end, bits) &&
                     (out != [] && out[|out| - 1].Chunk? ==> begin < end && out[|out| - 1].sel != bits);
      written && delayed
    }

    method Flush(ghost events: seq<seq<Event>>, ghost n: nat)
      requires n <= |events| && Valid(events, n)
      modifies this`out, this`begin
      ensures begin == end == old(end) && Text(out) == text[..end]
      ensures OutOK(out, events, n, word) && Separated(out) && Tags(out) == old(Tags(out))
      ensures out != [] && out[|out| - 1].Chunk? ==> old(begin) < end && out[|out| - 1].sel == bits
    {
      if begin < end {
        var chunk := Chunk(text[begin..end], bits);
        AddItem(out, chunk, events, n, word);
        assert text[..begin] + text[begin..end] == text[..end];
        out := out + [chunk];
      }
      begin := end;
    }

    method Segment(to: int, ghost events: seq<seq<Event>>, ghost n: nat)
      requires n <= |events| && Valid(events, n) && end == lastOffs <= to <= |text|
      requires Steady(events, n, word, lastOffs, to, bitset)
      modifies this`out, this`begin, this`end, this`bits
      ensures Valid(events, n) && end == to && Tags(out) == old(Tags(out))
    {
      if lastOffs < to {
        if end != lastOffs || bits != bitset {
          Flush(events, n);
          begin := lastOffs;
        } else {
          SteadyJoin(events, n, word, begin, end, to, bits);
        }
        end := to;
        bits := bitset;
      }
    }

    /** In step with a merger that has handed out pos[i] events of selection i. */
    ghost predicate InStep(events: seq<seq<Event>>, n: nat, pos: seq<nat>)
      requires n <= |events|
      reads this
    {
      var segments := Valid(events, n) && end == lastOffs;
      var merger := Consumed(events, pos, lastOffs);
      var output := merger && bitset == OpenBits(pos, n, word) && Tags(out) == LinksSoFar(events, n, pos);
      segments && output
    }

    /** The text up to the next event, of selection `index`, goes to the delayed segment. */
    method UpToEvent(ghost index: int, ghost events: seq<seq<Event>>, ghost n: nat, ghost pos: seq<nat>, offs: int)
      requires n <= |events| && InStep(events, n, pos) && 0 <= index < |events| && pos[index] < |events[index]|
      requires offs == events[index][pos[index]].offs <= |text|
      requires AllOrdered(events) && Ahead(events, pos, offs)
      modifies this`out, this`begin, this`end, this`bits, this`lastOffs
      ensures Valid(events, n) && end == lastOffs == offs && Tags(out) == old(Tags(out))
      ensures Consumed(events, pos[index := pos[index] + 1], offs)
    {
      BitsUntilNext(events, pos, lastOffs, n, word, offs);
      ConsumeNext(events, pos, lastOffs, index);
      Segment(offs, events, n);
      lastOffs := offs;
    }

    /** One iteration of the main loop, for the next event of the links. */
    method LinkChange(offs: int, start: bool, ghost events: seq<seq<Event>>, ghost n: nat, ghost pos: seq<nat>)
      requires n < |events| && InStep(events, n, pos) && pos[n] < |events[n]|
      requires Event(offs, start) == events[n][pos[n]] && offs <= |text|
      requires AllOrdered(events) && Ahead(events, pos, offs)
      modifies this
      ensures InStep(events, n, pos[n := pos[n] + 1])
    {
      UpToEvent(n, events, n, pos, offs);
      FlipBit(pos, n, word, n, start);
      TakeOne(events[n], pos[n]);
      WriteTag(offs, start, events, n);
    }

    /** One iteration of the main loop, for the next event of selection `index`. */
    method BitChange(index: nat, offs: int, start: bool, ghost events: seq<seq<Event>>, ghost n: nat, ghost pos: seq<nat>)
      requires index < n <= |events| && InStep(events, n, pos) && pos[index] < |events[index]|
      requires Event(offs, start) == events[index][pos[index]] && offs <= |text|
      requires AllOrdered(events) && Ahead(events, pos, offs)
      modifies this
      ensures InStep(events, n, pos[index := pos[index] + 1])
    {
      LinksSame(events, n, pos, index);
      UpToEvent(index, events, n, pos, offs);
      SetBit(index, start, n, pos);
    }

    method SetBit(index: nat, start: bool, ghost n: nat, ghost pos: seq<nat>)
      requires index < n <= |pos| && bitset == OpenBits(pos, n, word) && (start <==> pos[index] % 2 == 0)
      modifies this`bitset
      ensures bitset == OpenBits(pos[index := pos[index] + 1], n, word)
    {
      FlipBit(pos, n, word, index, start);
      if start {
        bitset := bitset + Mask(index, word);
      } else {
        bitset := bitset - Mask(index, word);
      }
    }

    /** The text behind the last event. */
    method Finish(ghost events: seq<seq<Event>>, ghost n: nat, ghost pos: seq<nat>)
      requires n <= |events| && InStep(events, n, pos)
      requires Ahead(events, pos, |text| + 1)
      modifies this
      ensures Formatted(text, events, n, word, out)
    {
      BitsUntilNext(events, pos, lastOffs, n, word, |text|);
      if n < |events| { UpToLater(events[n], lastOffs, |text|, pos[n]); }
      Segment(|text|, events, n);
      Flush(events, n);
      assert text[..|text|] == text;
    }

    method WriteTag(offs: int, start: bool, ghost events: seq<seq<Event>>, ghost n: nat)
      requires n <= |events| && Valid(events, n) && end == offs
      modifies this`out, this`begin
      ensures Valid(events, n) && begin == end
      ensures Tags(out) == old(Tags(out)) + [Event(offs, start)]
    {
      Flush(events, n);
      AddItem(out, Tag(offs, start), events, n, word);
      out := out + [Tag(offs, start)];
    }
  }

  // ---- The events consumed so far -----------------------------------------------------------------

  /** pos[i] events of selection i are consumed: all at or before offs, the others at or after. */
  ghost predicate Consumed(events: seq<seq<Event>>, pos: seq<nat>, offs: int) {
    && |pos| == |events|
    && (forall i :: 0 <= i < |pos| ==> pos[i] <= |events[i]|)
    && (forall i, k :: 0 <= i < |pos| && 0 <= k < pos[i] ==> events[i][k].offs <= offs)
    && Ahead(events, pos, offs)
  }

  ghost function OpenBits(pos: seq<nat>, n: nat, word: nat): set<nat>
    requires n <= |pos|
  {
    set i: nat | i < n && i < word && pos[i] % 2 == 1
  }

  /** The events of the links that have been handed out. */
  ghost function LinksSoFar(events: seq<seq<Event>>, n: nat, pos: seq<nat>): seq<Event>
    requires n <= |events| == |pos| && (n < |events| ==> pos[n] <= |events[n]|)
  {
    if n < |events| then events[n][..pos[n]] else []
  }

  lemma LinksSame(events: seq<seq<Event>>, n: nat, pos: seq<nat>, index: nat)
    requires index < n <= |events| == |pos| && (n < |events| ==> pos[n] <= |events[n]|)
    ensures LinksSoFar(events, n, pos[index := pos[index] + 1]) == LinksSoFar(events, n, pos)
  {
  }

  /** No event is left before offs. */
  ghost predicate Ahead(events: seq<seq<Event>>, pos: seq<nat>, offs: int) {
    |pos| == |events| && forall i :: 0 <= i < |pos| && pos[i] < |events[i]| ==> offs <= events[i][pos[i]].offs
  }

  ghost predicate AllOrdered(events: seq<seq<Event>>) {
    forall i :: 0 <= i < |events| ==> Ordered(events[i]) && Alternating(events[i])
  }

  lemma BitsAt(events: seq<seq<Event>>, pos: seq<nat>, offs: int, n: nat, word: nat, q: int)
    requires Consumed(events, pos, offs) && n <= |events| && offs <= q && Ahead(events, pos, q + 1)
    ensures Shown(events, n, word, q) == OpenBits(pos, n, word)
  {
    forall i | 0 <= i < n ensures OnAt(events[i], q) <==> pos[i] % 2 == 1 {
      UpToIs(events[i], q, pos[i]);
    }
  }

  /** Up to the next event nothing changes. */
  lemma BitsUntilNext(events: seq<seq<Event>>, pos: seq<nat>, offs: int, n: nat, word: nat, to: int)
    requires Consumed(events, pos, offs) && n <= |events| && Ahead(events, pos, to)
    ensures Steady(events, n, word, offs, to, OpenBits(pos, n, word))
  {
    forall q | offs <= q < to ensures Shown(events, n, word, q) == OpenBits(pos, n, word) {
      BitsAt(events, pos, offs, n, word, q);
    }
  }

  lemma ConsumeNext(events: seq<seq<Event>>, pos: seq<nat>, offs: int, index: nat)
    requires Consumed(events, pos, offs) && index < |pos| && pos[index] < |events[index]|
    requires AllOrdered(events) && Ahead(events, pos, events[index][pos[index]].offs)
    ensures Consumed(events, pos[index := pos[index] + 1], events[index][pos[index]].offs)
  {
    var (pos', offs') := (pos[index := pos[index] + 1], events[index][pos[index]].offs);
    assert offs <= offs';
    forall i, k | 0 <= i < |pos'| && 0 <= k < pos'[i] ensures events[i][k].offs <= offs' {
      if k < pos[i] { assert events[i][k].offs <= offs; }
    }
  }

  /** The bit an event of selection `index` changes, if it has one. */
  function Mask(index: nat, word: nat): set<nat> { if index < word then {index} else {} }

  lemma FlipBit(pos: seq<nat>, n: nat, word: nat, index: nat, start: bool)
    requires n <= |pos| && index < |pos| && (start <==> pos[index] % 2 == 0)
    ensures var after := OpenBits(pos[index := pos[index] + 1], n, word);
            if index >= n then after == OpenBits(pos, n, word)
            else after == if start then OpenBits(pos, n, word) + Mask(index, word) else OpenBits(pos, n, word) - Mask(index, word)
  {
    var pos' := pos[index := pos[index] + 1];
    assert pos'[index] % 2 == 1 <==> start;
    assert forall i :: 0 <= i < |pos| && i != index ==> pos'[i] == pos[i];
  }

  ghost function EventsLeft(pending: seq<seq<Event>>): nat {
    if pending == [] then 0 else |pending[0]| + EventsLeft(pending[1..])
  }

  lemma {:induction false} OneLess(pending: seq<seq<Event>>, index: nat)
    requires index < |pending| && pending[index] != []
    ensures EventsLeft(pending[index := pending[index][1..]]) < EventsLeft(pending)
  {
    var p' := pending[index := pending[index][1..]];
    if index == 0 {
      assert p'[1..] == pending[1..];
    } else {
      OneLess(pending[1..], index - 1);
      assert p'[1..] == pending[1..][index - 1 := pending[1..][index - 1][1..]];
    }
  }

  ghost function AllEvents(sels: seq<Selection>): (e: seq<seq<Event>>)
    ensures |e| == |sels| && forall i :: 0 <= i < |sels| ==> e[i] == Events(sels[i])
  {
    seq(|sels|, i requires 0 <= i < |sels| => Events(sels[i]))
  }

  // ---- FormatSelections -----------------------------------------------------------------------------

  /** The merger has handed out pos[i] events of selection i. */
  ghost predicate Remaining(events: seq<seq<Event>>, pos: seq<nat>, pending: seq<seq<Event>>) {
    && |events| == |pos| == |pending|
    && forall i :: 0 <= i < |pos| ==> pos[i] <= |events[i]| && pending[i] == events[i][pos[i]..]
  }

  lemma RemainingStep(events: seq<seq<Event>>, pos: seq<nat>, pending: seq<seq<Event>>, index: nat)
    requires Remaining(events, pos, pending) && index < |pos| && pending[index] != []
    ensures pos[index] < |events[index]| && pending[index][0] == events[index][pos[index]]
    ensures Remaining(events, pos[index := pos[index] + 1], pending[index := pending[index][1..]])
  {
  }

  lemma HeadsAfter(events: seq<seq<Event>>, pos: seq<nat>, pending: seq<seq<Event>>, index: int)
    requires Remaining(events, pos, pending) && IsNext(pending, index)
    ensures pos[index] < |events[index]|
    ensures Ahead(events, pos, events[index][pos[index]].offs)
  {
    forall i | 0 <= i < |pos| && pos[i] < |events[i]|
      ensures events[index][pos[index]].offs <= events[i][pos[i]].offs
    {
      assert pending[i] != [] && pending[i][0] == events[i][pos[i]];
    }
  }

  /** The output of FormatSelections on n selections, the events of the links (if there is a
      link writer) coming behind theirs. */
  ghost predicate Formatted(text: string, events: seq<seq<Event>>, n: nat, word: nat, out: seq<Out>)
    requires n <= |events|
  {
    && Text(out) == text
    && OutOK(out, events, n, word)
    && Separated(out)
    && Tags(out) == if n < |events| then events[n][..UpTo(events[n], |text|)] else []
  }

  /** The chunks concatenate to the text, every character is in a chunk with exactly the bits on
      at it, every link event up to the end of the text is written as a tag, in order and at its
      own offset, and neighbouring chunks with no tag in between differ. */
  method FormatSelections(text: string, hasLinks: bool, links: Selection, selections: seq<Selection>, word: nat)
    returns (out: seq<Out>)
    requires forall i :: 0 <= i < |selections| ==> WellFormed(selections[i])
    requires hasLinks ==> WellFormed(links)
    ensures Formatted(text, AllEvents(if hasLinks then selections + [links] else selections), |selections|, word, out)
  {
    var all := if hasLinks then selections + [links] else selections;
    ghost var (events, n) := (AllEvents(all), |selections|);
    forall i | 0 <= i < |all| ensures Ordered(events[i]) && Alternating(events[i]) { EventsShape(all[i]); }
    var changes := new Merger(all);
    var f := new Formatter(text, word);
    StartOffsets(all);
    Run(changes, f, if hasLinks then |all| - 1 else -1, events, n);
    out := f.out;
  }

  /** The main loop, from the first event on; `linkIndex` is the selection that holds the links. */
  method Run(changes: Merger, f: Formatter, linkIndex: int, ghost events: seq<seq<Event>>, ghost n: nat)
    requires changes.Valid() && changes as object != f && changes.Pending() == events
    requires |events| == if linkIndex == -1 then n else n + 1
    requires linkIndex != -1 ==> linkIndex == n
    requires AllOrdered(events)
    requires forall i :: 0 <= i < |events| && events[i] != [] ==> 0 <= events[i][0].offs
    requires f.out == [] && f.bitset == {} && f.lastOffs == 0 && f.begin == 0 && f.end == 0
    modifies changes, f
    ensures Formatted(f.text, events, n, f.word, f.out)
  {
    ghost var pos: seq<nat> := seq(|events|, i => 0);
    var len := |f.text|;
    while true
      invariant changes.Valid() && Remaining(events, pos, changes.Pending())
      invariant f.InStep(events, n, pos)
      decreases EventsLeft(changes.Pending())
    {
      ghost var pending := changes.Pending();
      var index, offs, start := changes.Next();
      ghost var pending' := changes.Pending();
      if index < 0 || offs > len {
        // no more segment changes, or the next is past the end of the text
        NothingUntil(events, pos, pending, index, len);
        break;
      }
      HeadsAfter(events, pos, pending, index);
      RemainingStep(events, pos, pending, index);
      OneLess(pending, index);
      if index == linkIndex {
        f.LinkChange(offs, start, events, n, pos);
      } else {
        f.BitChange(index, offs, start, events, n, pos);
      }
      pos := pos[index := pos[index] + 1];
      assert changes.Pending() == pending';
    }
    f.Finish(events, n, pos);
  }

  lemma UpToLater(e: seq<Event>, offs: int, len: int, k: nat)
    requires k <= |e| && offs <= len && (forall i :: 0 <= i < k ==> e[i].offs <= offs)
    requires k < |e| ==> len < e[k].offs
    ensures UpTo(e, len) == k
  {
    UpToIs(e, len, k);
  }

  lemma TakeOne(e: seq<Event>, k: nat)
    requires k < |e|
    ensures e[..k + 1] == e[..k] + [e[k]]
  {
  }

  lemma StartOffsets(sels: seq<Selection>)
    requires forall i :: 0 <= i < |sels| ==> WellFormed(sels[i])
    ensures forall i :: 0 <= i < |sels| && AllEvents(sels)[i] != [] ==> 0 <= AllEvents(sels)[i][0].offs
  {
    forall i | 0 <= i < |sels| && AllEvents(sels)[i] != [] ensures 0 <= AllEvents(sels)[i][0].offs {
      EventsShape(sels[i]);
    }
  }

  /** The loop ends when no event is left or the next lies past the text. */
  lemma NothingUntil(events: seq<seq<Event>>, pos: seq<nat>, pending: seq<seq<Event>>, index: int, len: nat)
    requires Remaining(events, pos, pending)
    requires index < 0 ==> forall i :: 0 <= i < |pending| ==> pending[i] == []
    requires index >= 0 ==> IsNext(pending, index) && pending[index][0].offs > len
    ensures Ahead(events, pos, len + 1)
  {
    forall i | 0 <= i < |pos| && pos[i] < |events[i]| ensures len < events[i][pos[i]].offs {
      assert pending[i] != [] && pending[i][0] == events[i][pos[i]];
    }
  }

  // ---- What the bits mean ---------------------------------------------------------------------------

  /** At every character: the bits are exactly the selections that cover it if and only if no
      selection without a bit does, and those with a bit are seen there. */
  lemma BitsAreCoverage(selections: seq<Selection>, events: seq<seq<Event>>, word: nat, q: int)
    requires forall i :: 0 <= i < |selections| ==> WellFormed(selections[i])
    requires |selections| <= |events| && forall i :: 0 <= i < |selections| ==> events[i] == Events(selections[i])
    ensures Shown(events, |selections|, word, q) == Covering(selections, q) <==>
            forall i :: 0 <= i < |selections| ==> if i < word then SeenAt(selections[i], q) else !Covers(selections[i], q)
  {
    forall i | 0 <= i < |selections| ensures (OnAt(events[i], q) <==> Covers(selections[i], q)) <==> SeenAt(selections[i], q) {
      OnIff(selections[i], q);
    }
    var (shown, covering) := (Shown(events, |selections|, word, q), Covering(selections, q));
    forall i: nat | i < |selections|
      ensures (i in shown <==> i in covering) <==> if i < word then SeenAt(selections[i], q) else !Covers(selections[i], q)
    {
    }
    SameBits(shown, covering, |selections|);
  }

  ghost function Covering(selections: seq<Selection>, q: int): set<nat> {
    set i: nat | i < |selections| && Covers(selections[i], q)
  }

  lemma SameBits(a: set<nat>, b: set<nat>, n: nat)
    requires forall i :: i in a || i in b ==> i < n
    ensures a == b <==> forall i: nat :: i < n ==> (i in a <==> i in b)
  {
    if forall i: nat :: i < n ==> (i in a <==> i in b) {
      assert forall i :: i in a <==> i in b;
    }
  }

  /** The link tags are all starts and ends of links up to the end of the text exactly when none of
      these lies at INFINITY or beyond. */
  lemma TagsAreBoundaries(text: string, selections: seq<Selection>, links: Selection, word: nat, out: seq<Out>)
    requires WellFormed(links) && Formatted(text, AllEvents(selections + [links]), |selections|, word, out)
    ensures var b := Boundaries(links);
            Tags(out) == b[..UpTo(b, |text|)] <==> forall i :: 0 <= i < |b| ==> !(INFINITY <= b[i].offs <= |text|)
  {
    EventsUpTo(links, |text|);
    assert (selections + [links])[|selections|] == links;
  }

  lemma {:induction false} TextGrows(out: seq<Out>, k: nat)
    requires k <= |out|
    ensures |Text(out[..k])| <= |Text(out)|
  {
    if k < |out| {
      TextGrows(out[..|out| - 1], k);
      assert out[..|out| - 1][..k] == out[..k];
    } else {
      assert out[..k] == out;
    }
  }

  /** A chunk lies within the text. */
  lemma ChunkInText(out: seq<Out>, k: nat)
    requires k < |out| && out[k].Chunk?
    ensures |Text(out[..k])| + |out[k].text| <= |Text(out)|
  {
    assert out[..k + 1] == out[..k] + [out[k]];
    TextSnoc(out[..k], out[k]);
    TextGrows(out, k + 1);
  }

  /** Every chunk has exactly the selections that cover each of its characters. */
  ghost predicate Exact(out: seq<Out>, selections: seq<Selection>) {
    forall k, q :: 0 <= k < |out| && out[k].Chunk? && |Text(out[..k])| <= q < |Text(out[..k])| + |out[k].text| ==>
      out[k].sel == Covering(selections, q)
  }

  /** On a text shorter than 2,000,000,000, with a bit for each selection, the chunks have exactly
      their covering selections, and the link tags are all starts and ends of links. */
  lemma ShortTextExact(text: string, selections: seq<Selection>, hasLinks: bool, links: Selection, word: nat, out: seq<Out>)
    requires |text| < 2_000_000_000 && |selections| <= word
    requires (forall i :: 0 <= i < |selections| ==> WellFormed(selections[i])) && (hasLinks ==> WellFormed(links))
    requires Formatted(text, AllEvents(if hasLinks then selections + [links] else selections), |selections|, word, out)
    ensures Exact(out, selections)
    ensures hasLinks ==> Tags(out) == Boundaries(links)[..UpTo(Boundaries(links), |text|)]
  {
    var events := AllEvents(if hasLinks then selections + [links] else selections);
    forall k, q | 0 <= k < |out| && out[k].Chunk? && |Text(out[..k])| <= q < |Text(out[..k])| + |out[k].text|
      ensures out[k].sel == Covering(selections, q)
    {
      ChunkInText(out, k);
      assert ItemOK(out, k, events, |selections|, word);
      BitsAreCoverage(selections, events, word, q);
    }
    if hasLinks { TagsAreBoundaries(text, selections, links, word, out); }
  }

  /** A selection beyond the bits of an int that covers a character leaves no trace. */
  lemma LostBit(word: nat)
    ensures var sels: seq<Selection> := seq(word, i => []) + [[Seg(0, 1)]];
            Covers(sels[word], 0) && Shown(AllEvents(sels), |sels|, word, 0) == {}
  {
    var sels: seq<Selection> := seq(word, i => []) + [[Seg(0, 1)]];
    assert sels[word][0].a <= 0 < sels[word][0].b;
    forall i: nat | i < word ensures !OnAt(AllEvents(sels)[i], 0) { assert sels[i] == []; }
  }
}
