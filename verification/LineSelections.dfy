/** The lines of a text as a Selection: lineSelection of website/format.go. */
module LineSelections {
  import opened Options
  import opened SelectionEvents

  /** text[s.a..s.b] is one line: no newline but at its end, which is a newline or the end of the
      text. */
  ghost predicate IsLine(text: string, s: Seg) {
    && 0 <= s.a < s.b <= |text|
    && (forall k :: s.a <= k < s.b - 1 ==> text[k] != '\n')
    && (text[s.b - 1] == '\n' || s.b == |text|)
  }

  /** The segments are lines that lie end to end, from 0 to `end`. */
  ghost predicate Lines(text: string, segs: seq<Seg>, end: int) {
    && (forall k :: 0 <= k < |segs| ==> IsLine(text, segs[k]))
    && (forall i, j :: 0 <= i < j < |segs| && j == i + 1 ==> segs[j].a == segs[i].b)
    && (segs != [] ==> segs[0].a == 0)
    && end == if segs == [] then 0 else segs[|segs| - 1].b
  }

  lemma LinesSnoc(text: string, segs: seq<Seg>, end: int, s: Seg)
    requires Lines(text, segs, end) && IsLine(text, s) && s.a == end
    ensures Lines(text, segs + [s], s.b)
  {
  }

  class LineSelection {
    const text: string
    var i: nat
    var j: nat

    ghost predicate Valid()
      reads this
    {
      i == j <= |text|
    }

    constructor (text: string)
      ensures this.text == text && Valid() && j == 0
    {
      this.text := text;
      i, j := 0, 0;
    }

    /** One call of the closure: the next line, or nil at the end of the text. */
    method Next() returns (seg: Option<Seg>)
      requires Valid()
      modifies this
      ensures Valid()
      ensures seg.None? <==> old(j) == |text|
      ensures seg.None? ==> j == old(j)
      ensures seg.Some? ==> seg.value == Seg(old(j), j) && IsLine(text, seg.value)
    {
      while j < |text|
        invariant i == old(j) <= j <= |text|
        invariant forall k :: i <= k < j ==> text[k] != '\n'
      {
        j := j + 1;
        if text[j - 1] == '\n' {
          break;
        }
      }
      seg := None;
      if i < j {
        seg := Some(Seg(i, j));
        i := j;
      }
    }
  }

  lemma {:induction false} LinesOrdered(text: string, segs: seq<Seg>, end: int, m: nat, n: nat)
    requires Lines(text, segs, end) && m < n < |segs|
    ensures segs[m].b <= segs[n].a
  {
    if m < n - 1 { LinesOrdered(text, segs, end, m, n - 1); }
  }

  /** All segments: they tile the text, so the selection is well formed and covers it all. */
  method AllLines(text: string) returns (segs: Selection)
    ensures Lines(text, segs, |text|) && WellFormed(segs)
  {
    segs := [];
    var sel := new LineSelection(text);
    while true
      invariant sel.Valid() && fresh(sel) && sel.text == text
      invariant Lines(text, segs, sel.j)
      decreases |text| - sel.j
    {
      var seg := sel.Next();
      if seg.None? {
        break;
      }
      LinesSnoc(text, segs, seg.value.a, seg.value);
      segs := segs + [seg.value];
    }
    forall m, n | 0 <= m < n < |segs| ensures segs[m].b <= segs[n].a { LinesOrdered(text, segs, |text|, m, n); }
  }
}
