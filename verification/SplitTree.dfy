/** The span forest that showSplits of cmd/camtool/splits.go builds with a monotone stack.
    Where the rolling checksum splits, and with how many bits, is arbitrary input. */
module SplitTree {
  import opened Collections
  import opened Options

  datatype Span = Span(from: nat, to: nat, bits: nat, children: seq<Span>)

  /** A span without its children. */
  datatype Piece = Piece(from: nat, to: nat, bits: nat)

  /** The spans of a forest, children before their parent. */
  function PostOrder(spans: seq<Span>): seq<Piece> {
    if spans == [] then []
    else
      PostOrder(spans[0].children) + [Piece(spans[0].from, spans[0].to, spans[0].bits)] + PostOrder(spans[1..])
  }

  /** The first piece from j on with more bits than b. */
  function FirstAbove(pieces: seq<Piece>, b: nat, j: nat): Option<nat>
    decreases |pieces| - j
  {
    if j >= |pieces| then None else if pieces[j].bits > b then Some(j) else FirstAbove(pieces, b, j + 1)
  }

  lemma {:induction false} FirstAboveIs(pieces: seq<Piece>, b: nat, j: nat)
    ensures var k := FirstAbove(pieces, b, j);
            && (k.Some? ==> j <= k.value < |pieces| && pieces[k.value].bits > b)
            && forall i :: j <= i < |pieces| && (k.Some? ==> i < k.value) ==> pieces[i].bits <= b
    decreases |pieces| - j
  {
    if j < |pieces| { FirstAboveIs(pieces, b, j + 1); }
  }

  /** Every span of the forest hangs where the pieces say: its parent is the first later piece with
      strictly more bits. The first span of the forest is at position `base` of the post-order,
      and `parent` is the position of the span above the forest, None at the top. */
  ghost predicate HangsRight(spans: seq<Span>, base: nat, parent: Option<nat>, pieces: seq<Piece>) {
    spans != [] ==>
      var me := base + |PostOrder(spans[0].children)|;
      && FirstAbove(pieces, spans[0].bits, me + 1) == parent
      && HangsRight(spans[0].children, base, Some(me), pieces)
      && HangsRight(spans[1..], me + 1, parent, pieces)
  }

  /** input[i] is Some(bits) when the checksum splits after byte i. The pieces between splits,
      without the unfinished one at the end. */
  function Splits(input: seq<Option<nat>>): seq<Piece> {
    if input == [] then []
    else
      var k := |input| - 1;
      var before := Splits(input[..k]);
      if input[k].Some? then before + [Piece(LastSplit(input[..k]), |input|, input[k].value)] else before
  }

  /** Where the last split is. */
  function LastSplit(input: seq<Option<nat>>): (n: nat)
    ensures n <= |input|
  {
    if input == [] then 0 else if input[|input| - 1].Some? then |input| else LastSplit(input[..|input| - 1])
  }

  /** All pieces of the file: the last one, which no split ends, has no bits. */
  function Pieces(input: seq<Option<nat>>): seq<Piece> {
    if LastSplit(input) < |input| then Splits(input) + [Piece(LastSplit(input), |input|, 0)] else Splits(input)
  }

  /** The pieces lie end to end from 0 to the end of the file. */
  ghost predicate Tiles(pieces: seq<Piece>, end: nat) {
    && (forall i :: 0 <= i < |pieces| ==> pieces[i].from < pieces[i].to)
    && (forall i, j :: 0 <= i < j < |pieces| && j == i + 1 ==> pieces[j].from == pieces[i].to)
    && (pieces != [] ==> pieces[0].from == 0)
    && end == if pieces == [] then 0 else pieces[|pieces| - 1].to
  }

  lemma TilesSnoc(pieces: seq<Piece>, end: nat, x: Piece)
    requires Tiles(pieces, end) && x.from == end < x.to
    ensures Tiles(pieces + [x], x.to)
  {
  }

  lemma {:induction false} SplitsTile(input: seq<Option<nat>>)
    ensures Tiles(Splits(input), LastSplit(input))
  {
    if input != [] {
      var k := |input| - 1;
      SplitsTile(input[..k]);
      if input[k].Some? { TilesSnoc(Splits(input[..k]), LastSplit(input[..k]), Piece(LastSplit(input[..k]), |input|, input[k].value)); }
    }
  }

  lemma PiecesTile(input: seq<Option<nat>>)
    ensures Tiles(Pieces(input), |input|)
  {
    SplitsTile(input);
    if LastSplit(input) < |input| {
      TilesSnoc(Splits(input), LastSplit(input), Piece(LastSplit(input), |input|, 0));
    }
  }

  ghost predicate HasPiece(pieces: seq<Piece>, to: nat, bits: nat) {
    exists j :: 0 <= j < |pieces| && pieces[j].to == to && pieces[j].bits == bits
  }

  lemma PieceSnoc(pieces: seq<Piece>, x: Piece, to: nat, bits: nat)
    ensures HasPiece(pieces + [x], to, bits) <==> HasPiece(pieces, to, bits) || (x.to == to && x.bits == bits)
  {
    var all := pieces + [x];
    assert all[|pieces|] == x && forall j :: 0 <= j < |pieces| ==> all[j] == pieces[j];
  }

  lemma {:induction false} SplitsIff(input: seq<Option<nat>>, to: nat, bits: nat)
    ensures HasPiece(Splits(input), to, bits) <==> 1 <= to <= |input| && input[to - 1] == Some(bits)
  {
    if input != [] {
      var k := |input| - 1;
      SplitsIff(input[..k], to, bits);
      if input[k].Some? { PieceSnoc(Splits(input[..k]), Piece(LastSplit(input[..k]), |input|, input[k].value), to, bits); }
    }
  }

  /** A piece ends behind byte i with these bits exactly when the checksum splits there with them; and
      one without bits ends at the end of the file, if there is a byte and no split behind the last. */
  lemma PiecesIff(input: seq<Option<nat>>, to: nat, bits: nat)
    ensures HasPiece(Pieces(input), to, bits) <==>
            && 1 <= to <= |input|
            && (input[to - 1] == Some(bits) || (to == |input| && input[to - 1] == None && bits == 0))
  {
    SplitsIff(input, to, bits);
    if LastSplit(input) < |input| { PieceSnoc(Splits(input), Piece(LastSplit(input), |input|, 0), to, bits); }
  }

  ghost predicate NonIncreasing(spans: seq<Span>) {
    forall i, j :: 0 <= i < j < |spans| ==> spans[i].bits >= spans[j].bits
  }

  /** The forest over the pieces: post-order gives them back in file order, bits never increase
      at the top, and each piece hangs under the first later one with strictly more bits. */
  ghost predicate IsForest(spans: seq<Span>, pieces: seq<Piece>) {
    && PostOrder(spans) == pieces
    && NonIncreasing(spans)
    && HangsRight(spans, 0, None, pieces)
  }

  lemma {:induction false} PostOrderAppend(a: seq<Span>, b: seq<Span>)
    ensures PostOrder(a + b) == PostOrder(a) + PostOrder(b)
  {
    if a == [] {
      assert a + b == b;
    } else {
      PostOrderAppend(a[1..], b);
      DropFirst(a, b);
      var first := PostOrder(a[0].children) + [Piece(a[0].from, a[0].to, a[0].bits)];
      Associative(first, PostOrder(a[1..]), PostOrder(b));
      assert PostOrder(a + b) == first + PostOrder(a[1..] + b);
    }
  }

  lemma {:induction false} HangsAppend(a: seq<Span>, b: seq<Span>, base: nat, parent: Option<nat>, pieces: seq<Piece>)
    ensures HangsRight(a + b, base, parent, pieces) <==>
            HangsRight(a, base, parent, pieces) && HangsRight(b, base + |PostOrder(a)|, parent, pieces)
  {
    if a == [] {
      assert a + b == b;
    } else {
      HangsAppend(a[1..], b, base + |PostOrder(a[0].children)| + 1, parent, pieces);
      DropFirst(a, b);
    }
  }

  /** A new piece behind the others: forests under a parent stay, top-level ones with fewer bits
      go under the new piece, top-level ones with as many or more stay at the top. */
  lemma {:induction false} HangsSnoc(spans: seq<Span>, base: nat, parent: Option<nat>, pieces: seq<Piece>, x: Piece, parent': Option<nat>)
    requires HangsRight(spans, base, parent, pieces) && base + |PostOrder(spans)| <= |pieces|
    requires || (parent.Some? && parent' == parent)
             || (parent.None? && parent'.None? && forall t :: 0 <= t < |spans| ==> spans[t].bits >= x.bits)
             || (parent.None? && parent' == Some(|pieces|) && forall t :: 0 <= t < |spans| ==> spans[t].bits < x.bits)
    ensures HangsRight(spans, base, parent', pieces + [x])
  {
    if spans != [] {
      var me := base + |PostOrder(spans[0].children)|;
      FirstAboveSnoc(pieces, x, spans[0].bits, me + 1);
      HangsSnoc(spans[0].children, base, Some(me), pieces, x, Some(me));
      HangsSnoc(spans[1..], me + 1, parent, pieces, x, parent');
    }
  }

  lemma {:induction false} FirstAboveSnoc(pieces: seq<Piece>, x: Piece, b: nat, j: nat)
    requires j <= |pieces|
    ensures FirstAbove(pieces + [x], b, j) ==
              if FirstAbove(pieces, b, j).Some? then FirstAbove(pieces, b, j)
              else if x.bits > b then Some(|pieces|) else None
    decreases |pieces| - j
  {
    if j < |pieces| { FirstAboveSnoc(pieces, x, b, j + 1); }
  }

  /** A new split takes the spans with fewer bits off the end of the list as its children. */
  lemma AddSplit(spans: seq<Span>, pieces: seq<Piece>, x: Piece, k: nat)
    requires IsForest(spans, pieces) && k <= |spans|
    requires forall t :: k <= t < |spans| ==> spans[t].bits < x.bits
    requires k > 0 ==> spans[k - 1].bits >= x.bits
    ensures IsForest(spans[..k] + [Span(x.from, x.to, x.bits, spans[k..])], pieces + [x])
  {
    var (a, b) := (spans[..k], spans[k..]);
    assert spans == a + b;
    NewOrder(a, b, x);
    NewTops(spans, Span(x.from, x.to, x.bits, b), k);
    HangsAppend(a, b, 0, None, pieces);
    NewHangs(a, b, pieces, x);
  }

  lemma NewOrder(a: seq<Span>, b: seq<Span>, x: Piece)
    ensures PostOrder(a + [Span(x.from, x.to, x.bits, b)]) == PostOrder(a + b) + [x]
    ensures |PostOrder(a + b)| == |PostOrder(a)| + |PostOrder(b)|
  {
    var top := Span(x.from, x.to, x.bits, b);
    PostOrderAppend(a, b);
    PostOrderAppend(a, [top]);
    assert PostOrder([top]) == PostOrder(b) + [x] + PostOrder([top][1..]);
    assert PostOrder([top]) == PostOrder(b) + [x];
    Associative(PostOrder(a), PostOrder(b), [x]);
  }

  lemma NewTops(spans: seq<Span>, top: Span, k: nat)
    requires NonIncreasing(spans) && k <= |spans| && (k > 0 ==> spans[k - 1].bits >= top.bits)
    ensures NonIncreasing(spans[..k] + [top]) && forall i :: 0 <= i < k ==> spans[..k][i].bits >= top.bits
  {
    var a := spans[..k];
    forall i | 0 <= i < k ensures a[i].bits >= top.bits { assert i < k - 1 ==> spans[i].bits >= spans[k - 1].bits; }
  }

  lemma {:induction false} NewHangs(a: seq<Span>, b: seq<Span>, pieces: seq<Piece>, x: Piece)
    requires |PostOrder(a)| + |PostOrder(b)| == |pieces|
    requires HangsRight(a, 0, None, pieces) && HangsRight(b, |PostOrder(a)|, None, pieces)
    requires forall t :: 0 <= t < |b| ==> b[t].bits < x.bits
    requires forall t :: 0 <= t < |a| ==> a[t].bits >= x.bits
    ensures HangsRight(a + [Span(x.from, x.to, x.bits, b)], 0, None, pieces + [x])
  {
    var (m, top) := (|PostOrder(a)|, Span(x.from, x.to, x.bits, b));
    HangsSnoc(a, 0, None, pieces, x, None);
    NewTop(b, m, pieces, x);
    HangsAppend(a, [top], 0, None, pieces + [x]);
  }

  lemma NewTop(b: seq<Span>, m: nat, pieces: seq<Piece>, x: Piece)
    requires m + |PostOrder(b)| == |pieces| && HangsRight(b, m, None, pieces) && forall t :: 0 <= t < |b| ==> b[t].bits < x.bits
    ensures HangsRight([Span(x.from, x.to, x.bits, b)], m, None, pieces + [x])
  {
    HangsSnoc(b, m, None, pieces, x, Some(|pieces|));
    OneSpan(Span(x.from, x.to, x.bits, b), m, pieces + [x]);
  }

  lemma OneSpan(top: Span, base: nat, pieces: seq<Piece>)
    ensures PostOrder([top]) == PostOrder(top.children) + [Piece(top.from, top.to, top.bits)]
    ensures var me := base + |PostOrder(top.children)|;
            me + 1 == |pieces| && HangsRight(top.children, base, Some(me), pieces) ==> HangsRight([top], base, None, pieces)
  {
    assert [top][1..] == [];
  }

  /** The byte loop of showSplits. */
  method ShowSplits(input: seq<Option<nat>>) returns (spans: seq<Span>)
    ensures IsForest(spans, Pieces(input)) && Tiles(PostOrder(spans), |input|)
  {
    spans := [];
    var last := 0;
    for n := 0 to |input|
      invariant last == LastSplit(input[..n])
      invariant IsForest(spans, Splits(input[..n]))
    {
      assert input[..n + 1][..n] == input[..n];
      if input[n].Some? {
        var bits := input[n].value;
        var sliceFrom := |spans|;
        while sliceFrom > 0 && spans[sliceFrom - 1].bits < bits
          invariant 0 <= sliceFrom <= |spans|
          invariant forall t :: sliceFrom <= t < |spans| ==> spans[t].bits < bits
        {
          sliceFrom := sliceFrom - 1;
        }
        AddSplit(spans, Splits(input[..n]), Piece(last, n + 1, bits), sliceFrom);
        var children := spans[sliceFrom..];
        spans := spans[..sliceFrom];
        spans := spans + [Span(last, n + 1, bits, children)];
        last := n + 1;
      }
    }
    assert input[..|input|] == input;
    if |input| != last {
      AddLast(spans, Splits(input), Piece(last, |input|, 0));
      spans := spans + [Span(last, |input|, 0, [])];
    }
    PiecesTile(input);
  }

  /** The rest of the file becomes a top-level span without bits. */
  lemma AddLast(spans: seq<Span>, pieces: seq<Piece>, x: Piece)
    requires IsForest(spans, pieces) && x.bits == 0
    ensures IsForest(spans + [Span(x.from, x.to, x.bits, [])], pieces + [x])
  {
    assert spans[..|spans|] == spans && spans[|spans|..] == [];
    AddSplit(spans, pieces, x, |spans|);
  }
}
