/** Sorted streams of blobs: the peeker of pkg/blob/chanpeek.go and the orders the merging
    enumerators rely on. */
module Enumeration {
  import opened BlobRef

  datatype SizedRef = SizedRef(ref: Ref, size: nat)

  /** Strictly increasing by ref. */
  ghost predicate Increasing(s: seq<SizedRef>) {
    forall i, j :: 0 <= i < j < |s| ==> Less(s[i].ref, s[j].ref)
  }

  ghost predicate HasRef(s: seq<SizedRef>, r: Ref) {
    exists i :: 0 <= i < |s| && s[i].ref == r
  }

  /** Less orders r and o, that is, they are not the two readings of one sum. */
  predicate Comparable(r: Ref, o: Ref) {
    r == o || Less(r, o) || Less(o, r)
  }

  /** ChanPeeker. The channel is what is still to be received, after which it is closed. */
  class ChanPeeker {
    var ch: seq<SizedRef>
    var closed: bool
    var peekok: bool
    var peek: SizedRef

    ghost predicate Valid()
      reads this
    {
      (closed ==> ch == [] && !peekok)
    }

    /** What Take will return, one after the other. */
    ghost function Rest(): seq<SizedRef>
      reads this
    {
      if peekok then [peek] + ch else ch
    }

    constructor (s: seq<SizedRef>)
      ensures Valid() && Rest() == s
    {
      ch := s;
      closed, peekok := false, false;
      peek := SizedRef(Zero, 0);
    }

    method Peek() returns (sr: SizedRef, ok: bool)
      requires Valid()
      modifies this
      ensures Valid() && Rest() == old(Rest())
      ensures ok <==> Rest() != []
      ensures ok ==> sr == Rest()[0]
      ensures closed <==> !ok
      ensures peekok <==> ok
    {
      if closed {
        return SizedRef(Zero, 0), false;
      }
      if peekok {
        return peek, true;
      }
      if ch == [] {
        closed := true;
        return SizedRef(Zero, 0), false;
      }
      assert ch == [ch[0]] + ch[1..];
      peek, peekok, ch := ch[0], true, ch[1..];
      return peek, true;
    }

    method Closed() returns (c: bool)
      requires Valid()
      modifies this
      ensures Valid() && Rest() == old(Rest())
      ensures c <==> Rest() == []
    {
      var _, _ := Peek();
      c := closed;
    }

    method Take() returns (sr: SizedRef, ok: bool)
      requires Valid()
      modifies this
      ensures Valid()
      ensures ok <==> old(Rest()) != []
      ensures ok ==> sr == old(Rest())[0] && Rest() == old(Rest())[1..]
      ensures !ok ==> Rest() == old(Rest())
    {
      sr, ok := Peek();
      if ok {
        assert Rest()[1..] == ch;
        peekok := false;
      }
    }
  }

  /** The peeker is at position i of the stream. */
  ghost predicate IsAt(p: ChanPeeker, s: seq<SizedRef>, i: nat)
    reads p
  {
    var at := p.Valid() && i <= |s| && p.Rest() == s[i..];
    at
  }

  method PeekAt(p: ChanPeeker, ghost s: seq<SizedRef>, ghost i: nat) returns (sr: SizedRef, ok: bool)
    requires IsAt(p, s, i)
    modifies p
    ensures IsAt(p, s, i) && (ok <==> i < |s|) && (ok ==> sr == s[i])
  {
    sr, ok := p.Peek();
  }

  method TakeAt(p: ChanPeeker, ghost s: seq<SizedRef>, ghost i: nat) returns (sr: SizedRef)
    requires IsAt(p, s, i) && i < |s|
    modifies p
    ensures IsAt(p, s, i + 1) && sr == s[i]
  {
    var ok;
    sr, ok := p.Take();
  }
}
