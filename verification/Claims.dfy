/** Attribute values of a permanode folded from its claims: pkg/index/corpus.go. */
module Claims {
  import opened Collections
  import opened BlobRef
  import opened Sorting

  datatype ClaimType = SetAttribute | AddAttribute | DelAttribute | OtherType

  /** A camtypes.Claim on a permanode; dates are instants. */
  datatype Claim = Claim(ref: Ref, signer: Ref, date: int, typ: ClaimType, attr: string, value: string)

  predicate Earlier(a: Claim, b: Claim) { a.date < b.date }

  /** The claim counts for attribute attr at time `at`; the zero signer filter lets all through. */
  predicate Visible(c: Claim, attr: string, at: int, signer: Ref) {
    c.attr == attr && c.date <= at && (Valid(signer) ==> c.signer == signer)
  }

  function Without(vals: seq<string>, v: string): seq<string> {
    if vals == [] then [] else (if vals[0] == v then [] else [vals[0]]) + Without(vals[1..], v)
  }

  /** What one claim does to the values. */
  function Apply(vals: seq<string>, c: Claim): seq<string> {
    match c.typ
    case DelAttribute => if c.value == "" then [] else Without(vals, c.value)
    case SetAttribute => [c.value]
    case AddAttribute => vals + [c.value]
    case OtherType => vals
  }

  /** The values after the visible claims, in order. */
  function Values(claims: seq<Claim>, attr: string, at: int, signer: Ref): seq<string> {
    if claims == [] then []
    else
      var k := |claims| - 1;
      var before := Values(claims[..k], attr, at, signer);
      if Visible(claims[k], attr, at, signer) then Apply(before, claims[k]) else before
  }

  // ---- The loop over one slice ------------------------------------------------------------------

  /** copy(dst[i:], dst[i+1:]) within the first m strings. */
  method ShiftDown(dst: array<string>, i: nat, m: nat)
    requires i < m <= dst.Length
    modifies dst
    ensures dst[..i] == old(dst[..i]) && dst[i..m - 1] == old(dst[i + 1..m])
  {
    for j := i to m - 1
      invariant forall k :: 0 <= k < i ==> dst[k] == old(dst[k])
      invariant forall k :: i <= k < j ==> dst[k] == old(dst[k + 1])
      invariant forall k :: j <= k < dst.Length ==> dst[k] == old(dst[k])
    {
      dst[j] := dst[j + 1];
    }
  }

  /** The inner loop of AppendPermanodeAttrValuesLocked: deletes a value from the front n strings
      of the slice. */
  method Remove(dst: array<string>, n: nat, v: string) returns (m: nat)
    requires n <= dst.Length
    modifies dst
    ensures m <= n && dst[..m] == Without(old(dst[..n]), v)
  {
    ghost var all := Without(dst[..n], v);
    m := n;
    var i := 0;
    while i < m
      invariant 0 <= i <= m <= n
      invariant all == dst[..][..i] + Without(dst[..][i..m], v)
    {
      WithoutStep(dst[..], i, m, v);
      if dst[i] == v {
        ShiftDown(dst, i, m);
        m := m - 1;
      } else {
        i := i + 1;
      }
    }
    WithoutNone(dst[..], m, v);
  }

  lemma WithoutStep(s: seq<string>, i: nat, m: nat, v: string)
    requires i < m <= |s|
    ensures s[..i] + Without(s[i..m], v) ==
            if s[i] == v then s[..i] + Without(s[i + 1..m], v) else s[..i + 1] + Without(s[i + 1..m], v)
  {
    assert s[i..m][0] == s[i] && s[i..m][1..] == s[i + 1..m];
    assert s[..i + 1] == s[..i] + [s[i]];
    assert s[..i] + ([s[i]] + Without(s[i + 1..m], v)) == s[..i] + [s[i]] + Without(s[i + 1..m], v);
  }

  lemma WithoutNone(s: seq<string>, m: nat, v: string)
    requires m <= |s|
    ensures s[..m] + Without(s[m..m], v) == s[..m]
  {
    assert s[m..m] == [];
  }

  /** AppendPermanodeAttrValuesLocked: the slice, updated in place claim by claim, ends up holding
      the folded values: those that visible claims gave and none took away since, in order. */
  method AppendAttrValues(claims: seq<Claim>, attr: string, at: int, signer: Ref) returns (dst: array<string>, n: nat)
    ensures n <= dst.Length && dst[..n] == Values(claims, attr, at, signer)
    ensures Picks(ValuesOf(claims), Kept(claims, attr, at, signer, |claims|), dst[..n])
  {
    dst := new string[|claims|](i => "");
    n := 0;
    for k := 0 to |claims|
      invariant n <= k && dst.Length == |claims| && fresh(dst)
      invariant dst[..n] == Values(claims[..k], attr, at, signer)
    {
      var cl := claims[k];
      assert claims[..k + 1][..k] == claims[..k];
      if cl.attr != attr || cl.date > at {
        continue;
      }
      if Valid(signer) && signer != cl.signer {
        continue;
      }
      match cl.typ
      case DelAttribute =>
        if cl.value == "" {
          n := 0;
        } else {
          n := Remove(dst, n, cl.value);
        }
      case SetAttribute =>
        dst[0] := cl.value;
        n := 1;
      case AddAttribute =>
        ghost var before := dst[..n];
        dst[n] := cl.value;
        n := n + 1;
        assert dst[..n] == before + [cl.value];
      case OtherType =>
    }
    assert claims[..|claims|] == claims;
    ValuesAreKept(claims, attr, at, signer, |claims|);
  }

  // ---- What the fold means --------------------------------------------------------------------

  /** The claim makes x a value. */
  predicate Gives(c: Claim, x: string) { (c.typ == SetAttribute || c.typ == AddAttribute) && c.value == x }

  /** The claim takes away the x that were there before. */
  predicate Takes(c: Claim, x: string) { c.typ == SetAttribute || (c.typ == DelAttribute && (c.value == "" || c.value == x)) }

  /** Claim i gives x and no visible claim before `end` takes it away again. */
  ghost predicate GivenAt(claims: seq<Claim>, attr: string, at: int, signer: Ref, x: string, i: int, end: int) {
    && 0 <= i < end <= |claims| && Visible(claims[i], attr, at, signer) && Gives(claims[i], x)
    && forall j :: i < j < end && Visible(claims[j], attr, at, signer) ==> !Takes(claims[j], x)
  }

  /** A string is a value exactly when some visible claim gave it and none took it away since. */
  lemma {:induction false} ValueIff(claims: seq<Claim>, attr: string, at: int, signer: Ref, x: string, n: nat)
    requires n <= |claims|
    ensures x in Values(claims[..n], attr, at, signer) <==> exists i :: GivenAt(claims, attr, at, signer, x, i, n)
  {
    if n > 0 {
      var k := n - 1;
      ValueIff(claims, attr, at, signer, x, k);
      assert claims[..n][..k] == claims[..k];
      ApplyHas(Values(claims[..k], attr, at, signer), claims[k], x);
      if i :| GivenAt(claims, attr, at, signer, x, i, k) {
        assert !(Visible(claims[k], attr, at, signer) && Takes(claims[k], x)) ==> GivenAt(claims, attr, at, signer, x, i, n);
      }
      if i :| GivenAt(claims, attr, at, signer, x, i, n) {
        assert i < k ==> GivenAt(claims, attr, at, signer, x, i, k);
      }
      assert Visible(claims[k], attr, at, signer) && Gives(claims[k], x) ==> GivenAt(claims, attr, at, signer, x, k, n);
    }
  }

  /** The claims among the first n that gave a value which no visible one has taken away since. */
  ghost function Kept(claims: seq<Claim>, attr: string, at: int, signer: Ref, n: nat): set<nat>
    requires n <= |claims|
  {
    set i: nat | i < n && GivenAt(claims, attr, at, signer, claims[i].value, i, n)
  }

  function ValuesOf(claims: seq<Claim>): seq<string> {
    seq(|claims|, i requires 0 <= i < |claims| => claims[i].value)
  }

  /** The values are those of exactly these claims, in their order. */
  lemma {:induction false} ValuesAreKept(claims: seq<Claim>, attr: string, at: int, signer: Ref, n: nat)
    requires n <= |claims|
    ensures Picks(ValuesOf(claims), Kept(claims, attr, at, signer, n), Values(claims[..n], attr, at, signer))
  {
    if n == 0 {
      assert Kept(claims, attr, at, signer, 0) == {};
      PicksNone(ValuesOf(claims));
    } else {
      var k := n - 1;
      ValuesAreKept(claims, attr, at, signer, k);
      assert claims[..n][..k] == claims[..k];
      KeptMore(claims, attr, at, signer, k);
      ApplyKept(claims, Kept(claims, attr, at, signer, k), Values(claims[..k], attr, at, signer), k);
    }
  }

  /** How one claim changes what is kept. */
  lemma KeptMore(claims: seq<Claim>, attr: string, at: int, signer: Ref, k: nat)
    requires k < |claims|
    ensures Kept(claims, attr, at, signer, k + 1) ==
            if Visible(claims[k], attr, at, signer) then KeptBy(claims, Kept(claims, attr, at, signer, k), k) else Kept(claims, attr, at, signer, k)
    ensures forall i :: i in Kept(claims, attr, at, signer, k) ==> i < k
  {
    forall i: nat | i < k
      ensures GivenAt(claims, attr, at, signer, claims[i].value, i, k + 1) <==>
              GivenAt(claims, attr, at, signer, claims[i].value, i, k) &&
              !(Visible(claims[k], attr, at, signer) && Takes(claims[k], claims[i].value))
    {
    }
  }

  ghost function KeptBy(claims: seq<Claim>, kept: set<nat>, k: nat): set<nat>
    requires k < |claims|
  {
    (set i | i in kept && i < k && !Takes(claims[k], claims[i].value)) + if Gives(claims[k], claims[k].value) then {k} else {}
  }

  lemma ApplyKept(claims: seq<Claim>, kept: set<nat>, vals: seq<string>, k: nat)
    requires k < |claims| && Picks(ValuesOf(claims), kept, vals) && forall i :: i in kept ==> i < k
    ensures Picks(ValuesOf(claims), KeptBy(claims, kept, k), Apply(vals, claims[k]))
  {
    var (all, c) := (ValuesOf(claims), claims[k]);
    match c.typ
    case DelAttribute =>
      if c.value == "" {
        assert KeptBy(claims, kept, k) == {};
        PicksNone(all);
      } else {
        PicksWithout(all, kept, vals, c.value);
        KeptByDel(claims, kept, k);
      }
    case SetAttribute =>
      PicksNone(all);
      PicksSnoc(all, {}, [], k);
      assert KeptBy(claims, kept, k) == {} + {k};
      assert [] + [all[k]] == [c.value];
    case AddAttribute =>
      PicksSnoc(all, kept, vals, k);
      assert KeptBy(claims, kept, k) == kept + {k};
    case OtherType =>
      assert KeptBy(claims, kept, k) == kept;
  }

  lemma KeptByDel(claims: seq<Claim>, kept: set<nat>, k: nat)
    requires k < |claims| && claims[k].typ == DelAttribute && claims[k].value != "" && forall i :: i in kept ==> i < k
    ensures KeptBy(claims, kept, k) == Except(ValuesOf(claims), kept, claims[k].value)
  {
  }

  ghost function Except(all: seq<string>, which: set<nat>, v: string): set<nat> {
    set i | i in which && i < |all| && all[i] != v
  }

  lemma PicksWithout(all: seq<string>, which: set<nat>, vals: seq<string>, v: string)
    requires Picks(all, which, vals)
    ensures Picks(all, Except(all, which, v), Without(vals, v))
  {
    var idx :| InOrder(idx, which) && PickedAt(all, idx, vals);
    var idx' := WithoutAt(all, idx, vals, v);
    assert InOrder(idx', Except(all, which, v));
  }

  ghost predicate Ascends(idx: seq<nat>) { forall j, k :: 0 <= j < k < |idx| ==> idx[j] < idx[k] }

  lemma {:induction false} WithoutAt(all: seq<string>, idx: seq<nat>, vals: seq<string>, v: string) returns (idx': seq<nat>)
    requires PickedAt(all, idx, vals) && Ascends(idx)
    ensures PickedAt(all, idx', Without(vals, v)) && Ascends(idx')
    ensures forall i :: i in idx' <==> i in idx && i < |all| && all[i] != v
  {
    idx' := [];
    if vals != [] {
      var rest := WithoutAt(all, idx[1..], vals[1..], v);
      assert forall i :: i in idx <==> i == idx[0] || i in idx[1..];
      if vals[0] == v {
        idx' := rest;
        assert [] + Without(vals[1..], v) == Without(vals[1..], v);
      } else {
        FrontAscends(idx, rest);
        idx' := [idx[0]] + rest;
      }
    }
  }

  lemma FrontAscends(idx: seq<nat>, rest: seq<nat>)
    requires idx != [] && Ascends(idx) && Ascends(rest) && forall i :: i in rest ==> i in idx[1..]
    ensures Ascends([idx[0]] + rest)
  {
    forall k | 0 <= k < |rest| ensures idx[0] < rest[k] { assert rest[k] in idx[1..]; }
  }

  /** A claim on another attribute, later or by another signer can be left out of the list. */
  lemma {:induction false} InvisibleSkipped(claims: seq<Claim>, k: nat, attr: string, at: int, signer: Ref)
    requires k < |claims|
    requires claims[k].attr != attr || claims[k].date > at || (Valid(signer) && claims[k].signer != signer)
    ensures Values(claims[..k] + claims[k + 1..], attr, at, signer) == Values(claims, attr, at, signer)
  {
    var n := |claims| - 1;
    if k == n {
      assert claims[..k] + claims[k + 1..] == claims[..n];
    } else {
      InvisibleSkipped(claims[..n], k, attr, at, signer);
      OutFront(claims, k);
    }
  }

  /** And every other one counts: when it sets the attribute, its value is the only one. */
  lemma LastSetCounts(claims: seq<Claim>, attr: string, at: int, signer: Ref)
    requires claims != []
    requires var c := claims[|claims| - 1]; c.typ == SetAttribute && c.attr == attr && c.date <= at && (signer == Zero || c.signer == signer)
    ensures Values(claims, attr, at, signer) == [claims[|claims| - 1].value] && Slot(claims, attr, at, signer, |claims|) == claims[|claims| - 1].value
  {
  }

  // ---- The other readers -------------------------------------------------------------------------

  ghost predicate DateOrder(claims: seq<Claim>) {
    forall i, j :: 0 <= i < j < |claims| ==> claims[i].date <= claims[j].date
  }

  /** Some visible claim adds the value. */
  ghost predicate Added(claims: seq<Claim>, attr: string, at: int, signer: Ref, val: string) {
    exists i :: 0 <= i < |claims| && Visible(claims[i], attr, at, signer) && claims[i].typ == AddAttribute && claims[i].value == val
  }

  lemma {:induction false} WithoutHas(vals: seq<string>, v: string, x: string)
    ensures x in Without(vals, v) <==> x in vals && x != v
  {
    if vals != [] {
      WithoutHas(vals[1..], v, x);
      assert vals == [vals[0]] + vals[1..];
    }
  }

  /** How membership changes with one claim. */
  lemma ApplyHas(vals: seq<string>, c: Claim, x: string)
    ensures x in Apply(vals, c) <==>
            match c.typ
            case DelAttribute => c.value != "" && x in vals && x != c.value
            case SetAttribute => x == c.value
            case AddAttribute => x in vals || x == c.value
            case OtherType => x in vals
  {
    WithoutHas(vals, c.value, x);
  }

  lemma AddedSnoc(claims: seq<Claim>, k: nat, attr: string, at: int, signer: Ref, val: string)
    requires k < |claims|
    ensures Added(claims[..k + 1], attr, at, signer, val) <==>
            Added(claims[..k], attr, at, signer, val) ||
            (Visible(claims[k], attr, at, signer) && claims[k].typ == AddAttribute && claims[k].value == val)
  {
    var (a, b) := (claims[..k], claims[..k + 1]);
    assert forall i :: 0 <= i < k ==> a[i] == b[i];
    assert b[k] == claims[k];
  }

  /** Claims dated after `at` change nothing. */
  lemma {:induction false} LaterIgnored(claims: seq<Claim>, k: nat, attr: string, at: int, signer: Ref)
    requires k <= |claims| && forall i :: k <= i < |claims| ==> claims[i].date > at
    ensures Values(claims, attr, at, signer) == Values(claims[..k], attr, at, signer)
  {
    if k < |claims| {
      var n := |claims| - 1;
      LaterIgnored(claims[..n], k, attr, at, signer);
      assert claims[..n][..k] == claims[..k];
    } else {
      assert claims[..k] == claims;
    }
  }

  /** When PermanodeHasAttrValueLocked says true. */
  ghost predicate SaysPresent(claims: seq<Claim>, attr: string, at: int, val: string) {
    val in Values(claims, attr, at, Zero) || Added(claims, attr, at, Zero, val)
  }

  /** PermanodeHasAttrValueLocked. Its early return on an add claim makes it say true for more
      than the values: exactly for those and for what some claim once added. */
  method HasAttrValue(claims: seq<Claim>, at: int, attr: string, val: string) returns (ret: bool)
    requires DateOrder(claims)
    ensures ret <==> SaysPresent(claims, attr, at, val)
  {
    ret := false;
    for k := 0 to |claims|
      invariant !Added(claims[..k], attr, at, Zero, val)
      invariant ret <==> val in Values(claims[..k], attr, at, Zero)
    {
      var cl := claims[k];
      AddedSnoc(claims, k, attr, at, Zero, val);
      assert claims[..k + 1][..k] == claims[..k];
      if cl.attr != attr {
        continue;
      }
      if cl.date > at {
        assert forall i :: k <= i < |claims| ==> claims[i].date > at;
        LaterIgnored(claims, k, attr, at, Zero);
        assert !Added(claims, attr, at, Zero, val) by {
          assert forall i :: 0 <= i < k ==> claims[..k][i] == claims[i];
        }
        return;
      }
      ApplyHas(Values(claims[..k], attr, at, Zero), cl, val);
      match cl.typ
      case DelAttribute =>
        if cl.value == "" || cl.value == val {
          ret := false;
        }
      case SetAttribute =>
        ret := cl.value == val;
      case AddAttribute =>
        if cl.value == val {
          assert Added(claims, attr, at, Zero, val);
          return true;
        }
      case OtherType =>
    }
    assert claims[..|claims|] == claims;
  }

  function FirstNonEmpty(vals: seq<string>): string {
    if vals == [] then "" else if vals[0] != "" then vals[0] else FirstNonEmpty(vals[1..])
  }

  lemma {:induction false} FirstSnoc(vals: seq<string>, x: string)
    ensures FirstNonEmpty(vals + [x]) == if FirstNonEmpty(vals) != "" then FirstNonEmpty(vals) else x
  {
    if vals == [] {
      assert vals + [x] == [x] && [x][1..] == [];
    } else {
      FirstSnoc(vals[1..], x);
      assert (vals + [x])[1..] == vals[1..] + [x];
    }
  }

  /** The first n claims take away no single value. */
  ghost predicate OnlyClears(claims: seq<Claim>, attr: string, at: int, signer: Ref, n: nat) {
    forall i :: 0 <= i < n <= |claims| && Visible(claims[i], attr, at, signer) && claims[i].typ == DelAttribute ==> claims[i].value == ""
  }

  /** What one claim does to the single slot of PermanodeAttrValueLocked. */
  function Fill(v: string, c: Claim): string {
    match c.typ
    case DelAttribute => if c.value == "" || v == c.value then "" else v
    case SetAttribute => c.value
    case AddAttribute => if v == "" then c.value else v
    case OtherType => v
  }

  /** The slot after the first n claims. */
  function Slot(claims: seq<Claim>, attr: string, at: int, signer: Ref, n: nat): string
    requires n <= |claims|
  {
    if n == 0 then ""
    else
      var before := Slot(claims, attr, at, signer, n - 1);
      if Visible(claims[n - 1], attr, at, signer) then Fill(before, claims[n - 1]) else before
  }

  /** PermanodeAttrValueLocked. */
  method AttrValue(claims: seq<Claim>, attr: string, at: int, signer: Ref) returns (v: string)
    ensures v == Slot(claims, attr, at, signer, |claims|)
  {
    v := "";
    for k := 0 to |claims|
      invariant v == Slot(claims, attr, at, signer, k)
    {
      var cl := claims[k];
      if cl.attr != attr || cl.date > at {
        continue;
      }
      if Valid(signer) && signer != cl.signer {
        continue;
      }
      match cl.typ
      case DelAttribute =>
        if cl.value == "" {
          v := "";
        } else if v == cl.value {
          v := "";
        }
      case SetAttribute =>
        v := cl.value;
      case AddAttribute =>
        if v == "" {
          v := cl.value;
        }
      case OtherType =>
    }
  }

  /** Claim i puts x in the slot: it sets x, or adds x while the slot is empty. */
  ghost predicate Puts(claims: seq<Claim>, attr: string, at: int, signer: Ref, x: string, i: nat)
    requires i < |claims|
  {
    && Visible(claims[i], attr, at, signer) && Gives(claims[i], x)
    && (claims[i].typ == SetAttribute || Slot(claims, attr, at, signer, i) == "")
  }

  ghost predicate PutAt(claims: seq<Claim>, attr: string, at: int, signer: Ref, x: string, i: int, end: int) {
    && 0 <= i < end <= |claims| && Puts(claims, attr, at, signer, x, i)
    && forall j :: i < j < end && Visible(claims[j], attr, at, signer) ==> !Takes(claims[j], x)
  }

  /** The slot holds x exactly when some visible claim put it there and none took it away since. */
  lemma {:induction false} SlotIff(claims: seq<Claim>, attr: string, at: int, signer: Ref, x: string, n: nat)
    requires n <= |claims| && x != ""
    ensures Slot(claims, attr, at, signer, n) == x <==> exists i :: PutAt(claims, attr, at, signer, x, i, n)
  {
    if n > 0 {
      var k := n - 1;
      SlotIff(claims, attr, at, signer, x, k);
      var seen := Visible(claims[k], attr, at, signer);
      if i :| PutAt(claims, attr, at, signer, x, i, k) {
        assert !(seen && Takes(claims[k], x)) ==> PutAt(claims, attr, at, signer, x, i, n);
      }
      if i :| PutAt(claims, attr, at, signer, x, i, n) {
        assert i < k ==> PutAt(claims, attr, at, signer, x, i, k);
      }
      assert Puts(claims, attr, at, signer, x, k) ==> PutAt(claims, attr, at, signer, x, k, n);
    }
  }

  /** So what the slot holds is one of the values. */
  lemma SlotIsValue(claims: seq<Claim>, attr: string, at: int, signer: Ref, n: nat)
    requires n <= |claims| && Slot(claims, attr, at, signer, n) != ""
    ensures Slot(claims, attr, at, signer, n) in Values(claims[..n], attr, at, signer)
  {
    var x := Slot(claims, attr, at, signer, n);
    SlotIff(claims, attr, at, signer, x, n);
    ValueIff(claims, attr, at, signer, x, n);
    var i :| PutAt(claims, attr, at, signer, x, i, n);
    assert GivenAt(claims, attr, at, signer, x, i, n);
  }

  /** It is the first value that is not empty, as long as no claim deletes a single value. */
  lemma {:induction false} SlotIsFirst(claims: seq<Claim>, attr: string, at: int, signer: Ref, n: nat)
    requires n <= |claims| && OnlyClears(claims, attr, at, signer, n)
    ensures Slot(claims, attr, at, signer, n) == FirstNonEmpty(Values(claims[..n], attr, at, signer))
  {
    if n > 0 {
      SlotIsFirst(claims, attr, at, signer, n - 1);
      assert claims[..n][..n - 1] == claims[..n - 1];
      FirstSnoc(Values(claims[..n - 1], attr, at, signer), claims[n - 1].value);
      FirstSnoc([], claims[n - 1].value);
      assert [] + [claims[n - 1].value] == [claims[n - 1].value];
    }
  }

  /** After add a, add b, del a the three readers say different things: b is the one value, the
      single slot is empty, and a, which is gone, is reported as present. */
  lemma ReadersDisagree(r: Ref, s: Ref)
    ensures var claims := [Claim(r, s, 1, AddAttribute, "t", "a"), Claim(r, s, 2, AddAttribute, "t", "b"), Claim(r, s, 3, DelAttribute, "t", "a")];
            && Values(claims, "t", 3, Zero) == ["b"]
            && Slot(claims, "t", 3, Zero, 3) == ""
            && SaysPresent(claims, "t", 3, "a")
  {
    var claims := [Claim(r, s, 1, AddAttribute, "t", "a"), Claim(r, s, 2, AddAttribute, "t", "b"), Claim(r, s, 3, DelAttribute, "t", "a")];
    assert claims[..2][..1] == claims[..1] && claims[..1][..0] == [];
    assert Values(claims[..1], "t", 3, Zero) == ["a"];
    assert Values(claims[..2], "t", 3, Zero) == ["a", "b"];
    assert ["a", "b"][1..] == ["b"] && ["b"][1..] == [];
    assert Without(["b"], "a") == ["b"];
    assert Without(["a", "b"], "a") == ["b"];
    SlotOf(claims);
    assert claims[0].typ == AddAttribute;
  }

  lemma SlotOf(claims: seq<Claim>)
    requires |claims| == 3 && (forall i :: 0 <= i < 3 ==> Visible(claims[i], "t", 3, Zero))
    requires claims[0].typ == AddAttribute && claims[0].value == "a" && claims[1].typ == AddAttribute
    requires claims[2].typ == DelAttribute && claims[2].value == "a"
    ensures Slot(claims, "t", 3, Zero, 3) == ""
  {
    assert |"a"| == 1;
    assert Slot(claims, "t", 3, Zero, 0) == "";
    assert Slot(claims, "t", 3, Zero, 1) == "a";
    assert Slot(claims, "t", 3, Zero, 2) == "a";
  }
}
