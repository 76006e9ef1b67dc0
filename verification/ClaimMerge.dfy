/** How claims reach the corpus: mergeClaimRow and the sorting step of scanFromStorage in
    pkg/index/corpus.go. */
module ClaimMerge {
  import opened BlobRef
  import opened Sorting
  import opened Claims

  /** A decoded claim row: a claim and the permanode it is about. */
  datatype Row = Row(permanode: Ref, claim: Claim)

  type Permanodes = map<Ref, seq<Claim>>

  /** The claims on pn among the rows. */
  function ClaimsOn(rows: seq<Row>, pn: Ref): multiset<Claim> {
    if rows == [] then multiset{}
    else
      var k := |rows| - 1;
      ClaimsOn(rows[..k], pn) + if rows[k].permanode == pn then multiset{rows[k].claim} else multiset{}
  }

  ghost function RowsOf(rows: seq<Row>, n: nat, row: Row): set<nat>
    requires n <= |rows|
  {
    set i: nat | i < n && rows[i] == row
  }

  lemma RowsOfMore(rows: seq<Row>, k: nat, row: Row)
    requires k < |rows|
    ensures RowsOf(rows, k + 1, row) == if rows[k] == row then RowsOf(rows, k, row) + {k} else RowsOf(rows, k, row)
    ensures k !in RowsOf(rows, k, row)
  {
  }

  /** Each claim as often as there are rows with it. */
  lemma {:induction false} ClaimsOnCounts(rows: seq<Row>, n: nat, pn: Ref, c: Claim)
    requires n <= |rows|
    ensures ClaimsOn(rows[..n], pn)[c] == |RowsOf(rows, n, Row(pn, c))|
  {
    if n == 0 {
      assert RowsOf(rows, 0, Row(pn, c)) == {};
    } else {
      ClaimsOnCounts(rows, n - 1, pn, c);
      assert rows[..n][..n - 1] == rows[..n - 1];
      RowsOfMore(rows, n - 1, Row(pn, c));
    }
  }

  function Held(m: Permanodes, pn: Ref): seq<Claim> { if pn in m then m[pn] else [] }

  /** m' holds what m holds and the claims of the rows, in some order. */
  ghost predicate Gains(m: Permanodes, rows: seq<Row>, m': Permanodes) {
    forall pn :: GainsAt(m, rows, m', pn)
  }

  ghost predicate GainsAt(m: Permanodes, rows: seq<Row>, m': Permanodes, pn: Ref) {
    && multiset(Held(m', pn)) == multiset(Held(m, pn)) + ClaimsOn(rows, pn)
    && (pn in m' <==> pn in m || ClaimsOn(rows, pn) != multiset{})
  }

  ghost predicate ByDate(m: Permanodes) {
    forall pn :: pn in m ==> DateOrder(m[pn])
  }

  ghost predicate ByDateBut(m: Permanodes, todo: set<Ref>) {
    forall pn :: pn in m && pn !in todo ==> DateOrder(m[pn])
  }

  method SortByDate(list: seq<Claim>) returns (r: seq<Claim>)
    ensures DateOrder(r) && multiset(r) == multiset(list)
  {
    r := Sort(list, Earlier);
  }

  /** No two claims on one permanode have the same date. */
  ghost predicate DistinctDates(claims: multiset<Claim>) {
    forall a, b :: a in claims && b in claims && (a != b || claims[a] > 1) ==> a.date != b.date
  }

  lemma GainsNone(m: Permanodes)
    ensures Gains(m, [], m)
  {
  }

  lemma OneRow(row: Row, pn: Ref)
    ensures ClaimsOn([row], pn) == if row.permanode == pn then multiset{row.claim} else multiset{}
  {
    assert [row][..0] == [];
    assert ClaimsOn([row][..0], pn) == multiset{};
  }

  lemma RowsSnoc(rows: seq<Row>, row: Row, pn: Ref)
    ensures ClaimsOn(rows + [row], pn) == ClaimsOn(rows, pn) + ClaimsOn([row], pn)
  {
    var all := rows + [row];
    assert all[..|rows|] == rows && all[|rows|] == row;
    OneRow(row, pn);
  }

  lemma GainsOne(m: Permanodes, row: Row, list: seq<Claim>)
    requires multiset(list) == multiset(Held(m, row.permanode)) + multiset{row.claim}
    ensures Gains(m, [row], m[row.permanode := list])
  {
    var m' := m[row.permanode := list];
    var rows := [row];
    forall pn ensures GainsAt(m, rows, m', pn) { OneRow(row, pn); }
  }

  lemma GainsSnoc(m: Permanodes, rows: seq<Row>, m': Permanodes, row: Row, m'': Permanodes)
    requires Gains(m, rows, m') && Gains(m', [row], m'')
    ensures Gains(m, rows + [row], m'')
  {
    forall pn ensures GainsAt(m, rows + [row], m'', pn) {
      RowsSnoc(rows, row, pn);
      assert GainsAt(m, rows, m', pn) && GainsAt(m', [row], m'', pn);
      Regrouped(multiset(Held(m, pn)), ClaimsOn(rows, pn), ClaimsOn([row], pn));
    }
  }

  lemma Regrouped(a: multiset<Claim>, b: multiset<Claim>, c: multiset<Claim>)
    ensures a + b + c == a + (b + c) && (b + c == multiset{} <==> b == multiset{} && c == multiset{})
  {
    if b + c == multiset{} {
      assert forall x :: (b + c)[x] == b[x] + c[x];
    }
  }

  ghost predicate SameBags(m: Permanodes, m': Permanodes) {
    m.Keys == m'.Keys && forall pn :: pn in m ==> multiset(m'[pn]) == multiset(m[pn])
  }

  lemma SameBagsStep(m: Permanodes, m': Permanodes, pn: Ref, list: seq<Claim>)
    requires SameBags(m, m') && pn in m' && multiset(list) == multiset(m'[pn])
    ensures SameBags(m, m'[pn := list])
  {
  }

  lemma GainsSame(m: Permanodes, rows: seq<Row>, m': Permanodes, m'': Permanodes)
    requires Gains(m, rows, m') && SameBags(m', m'')
    ensures Gains(m, rows, m'')
  {
    forall pn ensures GainsAt(m, rows, m'', pn) {
      assert GainsAt(m, rows, m', pn);
      assert pn in m'.Keys <==> pn in m''.Keys;
    }
  }

  class Corpus {
    var permanodes: Permanodes
    var building: bool

    constructor (building: bool)
      ensures permanodes == map[] && this.building == building
    {
      permanodes, this.building := map[], building;
    }

    /** mergeClaimRow: appends, and sorts unless the corpus is still being built. */
    method MergeClaimRow(row: Row)
      requires !building ==> ByDate(permanodes)
      modifies this`permanodes
      ensures !building ==> ByDate(permanodes)
      ensures Gains(old(permanodes), [row], permanodes)
    {
      var list := Held(permanodes, row.permanode) + [row.claim];
      if !building {
        list := SortByDate(list);
      }
      GainsOne(permanodes, row, list);
      permanodes := permanodes[row.permanode := list];
    }

    /** The step of scanFromStorage that restores the order of the claims. */
    method SortAll()
      modifies this
      ensures ByDate(permanodes) && !building && SameBags(old(permanodes), permanodes)
    {
      var todo := permanodes.Keys;
      while todo != {}
        invariant todo <= permanodes.Keys
        invariant ByDateBut(permanodes, todo)
        invariant SameBags(old(permanodes), permanodes)
        decreases |todo|
      {
        var pn :| pn in todo;
        var list := SortByDate(permanodes[pn]);
        SameBagsStep(old(permanodes), permanodes, pn, list);
        permanodes := permanodes[pn := list];
        todo := todo - {pn};
      }
      building := false;
    }
  }

  /** m holds the claims of the rows, each permanode's in date order. */
  ghost predicate Loaded(m: Permanodes, rows: seq<Row>) { ByDate(m) && Gains(map[], rows, m) }

  /** Bulk scan: everything is appended and sorted at the end. */
  method Scan(rows: seq<Row>) returns (m: Permanodes)
    ensures Loaded(m, rows)
  {
    var c := new Corpus(true);
    GainsNone(map[]);
    for n := 0 to |rows|
      invariant c.building && Gains(map[], rows[..n], c.permanodes)
    {
      ghost var before := c.permanodes;
      c.MergeClaimRow(rows[n]);
      GainsSnoc(map[], rows[..n], before, rows[n], c.permanodes);
      assert rows[..n + 1] == rows[..n] + [rows[n]];
    }
    assert rows[..|rows|] == rows;
    ghost var before := c.permanodes;
    c.SortAll();
    m := c.permanodes;
    GainsSame(map[], rows, before, m);
  }

  /** Rows merged one by one into a running corpus. */
  method Receive(rows: seq<Row>) returns (m: Permanodes)
    ensures Loaded(m, rows)
  {
    var c := new Corpus(false);
    GainsNone(map[]);
    for n := 0 to |rows|
      invariant !c.building && ByDate(c.permanodes) && Gains(map[], rows[..n], c.permanodes)
    {
      ghost var before := c.permanodes;
      c.MergeClaimRow(rows[n]);
      GainsSnoc(map[], rows[..n], before, rows[n], c.permanodes);
      assert rows[..n + 1] == rows[..n] + [rows[n]];
    }
    assert rows[..|rows|] == rows;
    m := c.permanodes;
  }

  // ---- Order of arrival ------------------------------------------------------------------------

  lemma EarlierIsOrder()
    ensures IsOrder(Earlier)
  {
  }

  lemma BagSplit(s: seq<Claim>, i: nat, j: nat)
    requires i < j < |s|
    ensures s[i] in multiset(s) && s[j] in multiset(s) && (s[i] == s[j] ==> multiset(s)[s[i]] > 1)
  {
    assert s == s[..i] + [s[i]] + s[i + 1..j] + [s[j]] + s[j + 1..];
  }

  /** Lists sorted by distinct dates are strictly sorted. */
  lemma StrictByDate(s: seq<Claim>)
    requires DateOrder(s) && DistinctDates(multiset(s))
    ensures StrictlySorted(s, Earlier)
  {
    forall i, j | 0 <= i < j < |s| ensures Earlier(s[i], s[j]) {
      BagSplit(s, i, j);
    }
  }

  lemma OneOrder(a: seq<Claim>, b: seq<Claim>)
    requires DateOrder(a) && DateOrder(b) && multiset(a) == multiset(b) && DistinctDates(multiset(a))
    ensures a == b
  {
    StrictByDate(a);
    StrictByDate(b);
    EarlierIsOrder();
    SortedUnique(a, b, Earlier);
  }

  /** The rows hold the same claims, and no permanode has two claims of one date. */
  ghost predicate SameClaims(rows: seq<Row>, rows': seq<Row>) {
    forall pn :: ClaimsOn(rows, pn) == ClaimsOn(rows', pn) && DistinctDates(ClaimsOn(rows, pn))
  }

  /** With distinct dates it does not matter how the claims came in: corpora that hold the same
      claims in date order are equal. */
  lemma SameHoweverBuilt(m: Permanodes, rows: seq<Row>, m': Permanodes, rows': seq<Row>)
    requires Loaded(m, rows) && Loaded(m', rows') && SameClaims(rows, rows')
    ensures m == m'
  {
    forall pn ensures (pn in m <==> pn in m') && Held(m, pn) == Held(m', pn) {
      assert GainsAt(map[], rows, m, pn) && GainsAt(map[], rows', m', pn);
      assert multiset(Held(map[], pn)) + ClaimsOn(rows, pn) == ClaimsOn(rows, pn);
      OneOrder(Held(m, pn), Held(m', pn));
    }
    SameHeld(m, m');
  }

  lemma SameHeld(m: Permanodes, m': Permanodes)
    requires forall pn :: (pn in m <==> pn in m') && Held(m, pn) == Held(m', pn)
    ensures m == m'
  {
    forall pn | pn in m ensures m[pn] == m'[pn] { assert Held(m, pn) == Held(m', pn); }
  }

  /** A bulk scan of the rows in one order and merging them one by one in another give the same
      corpus. */
  method ScanEqualsReceive(stored: seq<Row>, received: seq<Row>) returns (m: Permanodes, m': Permanodes)
    requires SameClaims(stored, received)
    ensures m == m' && Loaded(m, stored)
  {
    m := Scan(stored);
    m' := Receive(received);
    SameHoweverBuilt(m, stored, m', received);
  }

  /** A claim that comes in later leaves what the attribute was before its date as it was. */
  lemma LaterClaimHarmless(before: seq<Claim>, after: seq<Claim>, c: Claim, attr: string, at: int, signer: Ref)
    requires DateOrder(before) && DateOrder(after) && multiset(after) == multiset(before) + multiset{c}
    requires DistinctDates(multiset(after)) && c.date > at
    ensures Values(after, attr, at, signer) == Values(before, attr, at, signer)
  {
    assert c in multiset(after);
    var k :| 0 <= k < |after| && after[k] == c;
    RemoveOne(after, k);
    OneOrder(after[..k] + after[k + 1..], before);
    InvisibleSkipped(after, k, attr, at, signer);
  }

  lemma RemoveOne(s: seq<Claim>, k: nat)
    requires k < |s| && DateOrder(s) && DistinctDates(multiset(s))
    ensures var rest := s[..k] + s[k + 1..];
            DateOrder(rest) && DistinctDates(multiset(rest)) && multiset(rest) == multiset(s) - multiset{s[k]}
  {
    OutBag(s, k);
    RestSorted(s, k);
    FewerDistinct(multiset(s[..k] + s[k + 1..]), multiset(s));
  }

  lemma RestSorted(s: seq<Claim>, k: nat)
    requires k < |s| && DateOrder(s)
    ensures DateOrder(s[..k] + s[k + 1..])
  {
    var rest := s[..k] + s[k + 1..];
    assert forall i :: 0 <= i < |rest| ==> rest[i] == if i < k then s[i] else s[i + 1];
  }

  lemma FewerDistinct(b: multiset<Claim>, b': multiset<Claim>)
    requires b <= b' && DistinctDates(b')
    ensures DistinctDates(b)
  {
  }
}
