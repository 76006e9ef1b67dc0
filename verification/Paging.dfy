/** Enumerating all blobs page by page: EnumerateAllFrom in pkg/blobserver/enumerate.go over
    Index.EnumerateBlobs in pkg/index/enumstat.go. */
module Paging {
  import opened Collections
  import opened Options
  import opened ByteOrder
  import opened BlobRef
  import opened Decimals
  import opened Enumeration
  import opened PageRuns

  const PREFIX := "have:"
  const END := "have~"

  /** A row of the sorted key/value store. */
  datatype Row = Row(key: string, value: string)

  ghost predicate SortedRows(rows: seq<Row>) {
    forall i, j :: 0 <= i < j < |rows| ==> Lt(rows[i].key, rows[j].key)
  }

  predicate HasPrefix(s: string, p: string) { |p| <= |s| && s[..|p|] == p }

  /** parseHaveVal: the size up to the first pipe, if it is a 32-bit decimal. */
  function ParseHaveVal(val: string): Option<nat> {
    var digits := val[..Index(val, '|')];
    if digits != "" && AllDigits(digits) && Decimal(digits) < 0x1_0000_0000 then Some(Decimal(digits)) else None
  }

  /** The value begins with n's numeral, perhaps with zeros in front, and after it nothing or a pipe. */
  ghost predicate SaysSize(val: string, n: nat) {
    exists z: nat :: BeginsWith(val, Zeros(z) + Numeral(n))
  }

  predicate BeginsWith(val: string, digits: string) {
    digits <= val && (|val| > |digits| ==> val[|digits|] == '|')
  }

  lemma DigitsFound(val: string, digits: string)
    requires BeginsWith(val, digits) && AllDigits(digits)
    ensures val[..Index(val, '|')] == digits
  {
    forall i | 0 <= i < |digits| ensures val[i] != '|' { assert val[i] == digits[i]; }
    assert Index(val, '|') == |digits|;
  }

  lemma PaddedValue(z: nat, n: nat)
    ensures var s := Zeros(z) + Numeral(n); s != "" && AllDigits(s) && Decimal(s) == n
  {
    NumeralDigits(n);
    NumeralValue(n);
    ZerosValue(z, Numeral(n));
    DecimalIsPlaceValue(Zeros(z) + Numeral(n));
  }

  /** A size is read exactly when the value says it and it fits into 32 bits. */
  lemma HaveValIff(val: string, n: nat)
    ensures ParseHaveVal(val) == Some(n) <==> n <= 4294967295 && SaysSize(val, n)
  {
    if ParseHaveVal(val) == Some(n) {
      var digits := val[..Index(val, '|')];
      var z := DigitsAreNumeral(digits);
      assert BeginsWith(val, digits);
    }
    if n <= 4294967295 && SaysSize(val, n) {
      var z: nat :| BeginsWith(val, Zeros(z) + Numeral(n));
      PaddedValue(z, n);
      DigitsFound(val, Zeros(z) + Numeral(n));
    }
  }

  /** The blob a have row stands for, if its key parses and its value decodes. */
  function RowBlob(row: Row): Option<SizedRef> {
    if !HasPrefix(row.key, PREFIX) then None
    else
      match (Parse(row.key[|PREFIX|..], true), ParseHaveVal(row.value))
      case (Some(ref), Some(size)) => Some(SizedRef(ref, size))
      case _ => None
  }

  /** The resume string of a row equals its key: the next page starts right behind it. */
  lemma ResumeAtKey(row: Row)
    requires RowBlob(row).Some?
    ensures WellFormed(RowBlob(row).value.ref) && PREFIX + String(RowBlob(row).value.ref) == row.key
  {
    StringOfParse(row.key[|PREFIX|..], true);
    SplitAt(row.key, |PREFIX|);
  }

  /** A row stands for a blob exactly when its key is that of the blob and its value says its size. */
  lemma RowBlobIff(row: Row, sb: SizedRef)
    ensures RowBlob(row) == Some(sb) <==>
            WellFormed(sb.ref) && row.key == "have:" + String(sb.ref) && sb.size <= 4294967295 && SaysSize(row.value, sb.size)
  {
    if RowBlob(row) == Some(sb) {
      ResumeAtKey(row);
      HaveValIff(row.value, sb.size);
    }
    if WellFormed(sb.ref) && row.key == "have:" + String(sb.ref) && sb.size <= 4294967295 && SaysSize(row.value, sb.size) {
      HaveValIff(row.value, sb.size);
      ParseOfString(sb.ref);
      assert row.key[|PREFIX|..] == String(sb.ref) && row.key[..|PREFIX|] == PREFIX;
    }
  }

  lemma SplitAt(s: string, n: nat)
    requires n <= |s|
    ensures s[..n] + s[n..] == s
  {
  }

  function Decode(rows: seq<Row>): seq<Option<SizedRef>> {
    seq(|rows|, i requires 0 <= i < |rows| => RowBlob(rows[i]))
  }

  /** The rows with a key greater than `key`. */
  function RowsAfter(rows: seq<Row>, key: string): seq<Row> {
    if rows == [] || Lt(key, rows[0].key) then rows else RowsAfter(rows[1..], key)
  }

  /** The leading rows whose keys have the have prefix. */
  function HaveRows(rows: seq<Row>): seq<Row> {
    if rows == [] || !HasPrefix(rows[0].key, PREFIX) then [] else [rows[0]] + HaveRows(rows[1..])
  }

  // ---- One page -------------------------------------------------------------------------------

  /** A key below END with the prefix PREFIX is at least PREFIX; one with that prefix is below END. */
  lemma PrefixBelowEnd(k: string)
    requires HasPrefix(k, PREFIX)
    ensures Lt(k, END)
  {
    assert k == k[..4] + k[4..];
    assert k[..4] == k[..|PREFIX|][..4] == "have" && k[4] == k[..|PREFIX|][4] == ':';
    assert END == "have" + "~";
    LtPrefix("have", k[4..], "~");
  }

  lemma DecodeSnoc(rows: seq<Row>, row: Row)
    ensures Items(Decode(rows + [row])) == Items(Decode(rows)) + (if RowBlob(row).Some? then [RowBlob(row).value] else [])
  {
    assert Decode(rows + [row]) == Decode(rows) + [RowBlob(row)];
    ItemsSnoc(Decode(rows), RowBlob(row));
  }

  /** The iterator is at a row behind afterKey: it is the next have row, and the rows behind it
      come after. */
  lemma AtHaveRow(rest: seq<Row>, afterKey: string)
    requires rest != [] && Lt(afterKey, rest[0].key) && HasPrefix(rest[0].key, PREFIX) && SortedRows(rest)
    ensures HaveRows(RowsAfter(rest, afterKey)) == [rest[0]] + HaveRows(RowsAfter(rest[1..], afterKey))
  {
    if |rest| > 1 { LtTransitive(afterKey, rest[0].key, rest[1].key); }
    assert RowsAfter(rest[1..], afterKey) == rest[1..];
  }

  lemma BelowStart(rest: seq<Row>, afterKey: string)
    requires rest != [] && (Lt(rest[0].key, afterKey) || rest[0].key == afterKey)
    ensures HaveRows(RowsAfter(rest, afterKey)) == HaveRows(RowsAfter(rest[1..], afterKey))
  {
    if Lt(rest[0].key, afterKey) { LtAsymmetric(rest[0].key, afterKey); } else { LtIrreflexive(afterKey); }
  }

  lemma PastHaves(rest: seq<Row>, afterKey: string)
    requires rest != [] && !Lt(rest[0].key, afterKey) && rest[0].key != afterKey
    requires !Lt(rest[0].key, END) || !HasPrefix(rest[0].key, PREFIX)
    ensures HaveRows(RowsAfter(rest, afterKey)) == []
  {
    LtTotal(rest[0].key, afterKey);
    if HasPrefix(rest[0].key, PREFIX) { PrefixBelowEnd(rest[0].key); }
  }

  /** Index.EnumerateBlobs with an iterator over the rows from "have:" + after up to "have~". */
  method EnumerateBlobs(rows: seq<Row>, after: string, limit: nat) returns (dest: seq<SizedRef>)
    requires SortedRows(rows)
    ensures dest == Items(Decode(Cut(HaveRows(RowsAfter(rows, PREFIX + after)), limit)))
    ensures Sent(rows, FirstGood(rows, after, limit), dest)
  {
    var afterKey := PREFIX + after;
    ghost var page := HaveRows(RowsAfter(rows, afterKey));
    dest := [];
    var n, i := 0, 0;
    ghost var done: seq<Row> := [];
    while n < limit && i < |rows|
      invariant 0 <= i <= |rows| && 0 <= n == |done| <= limit
      invariant dest == Items(Decode(done))
      invariant page == done + HaveRows(RowsAfter(rows[i..], afterKey))
    {
      var k := rows[i].key;
      SuffixStep(rows, i);
      if Lt(k, afterKey) || k == afterKey {
        // below the start of the iterator, or skipped by the loop
        BelowStart(rows[i..], afterKey);
        i := i + 1;
        continue;
      }
      if !Lt(k, END) || !HasPrefix(k, PREFIX) {
        // past the end of the iterator, or the loop breaks
        PastHaves(rows[i..], afterKey);
        break;
      }
      n := n + 1;
      LtTotal(k, afterKey);
      AtHaveRow(rows[i..], afterKey);
      DecodeSnoc(done, rows[i]);
      Regroup(done, rows[i], HaveRows(RowsAfter(rows[i + 1..], afterKey)));
      done := done + [rows[i]];
      if RowBlob(rows[i]).Some? {
        dest := dest + [RowBlob(rows[i]).value];
      }
      i := i + 1;
    }
    CutAt(page, done, HaveRows(RowsAfter(rows[i..], afterKey)), limit);
    PageIsFirstGood(rows, after, limit);
  }

  lemma Regroup(done: seq<Row>, row: Row, rest: seq<Row>)
    ensures done + ([row] + rest) == (done + [row]) + rest
  {
  }

  lemma CutAt(page: seq<Row>, done: seq<Row>, rest: seq<Row>, limit: nat)
    requires page == done + rest && |done| <= limit && (|done| == limit || rest == [])
    ensures Cut(page, limit) == done
  {
  }

  // ---- The next page starts behind the last blob of this one ----------------------------------

  lemma {:induction false} RowsAfterRow(rows: seq<Row>, i: nat)
    requires SortedRows(rows) && i < |rows|
    ensures RowsAfter(rows, rows[i].key) == rows[i + 1..]
  {
    if i == 0 {
      LtIrreflexive(rows[0].key);
    } else {
      assert Lt(rows[0].key, rows[i].key);
      LtAsymmetric(rows[0].key, rows[i].key);
      RowsAfterRow(rows[1..], i - 1);
      assert rows[1..][i..] == rows[i + 1..];
    }
  }

  lemma {:induction false} RowsAfterSuffix(rows: seq<Row>, key: string) returns (o: nat)
    ensures o <= |rows| && RowsAfter(rows, key) == rows[o..]
  {
    if rows == [] || Lt(key, rows[0].key) {
      o := 0;
    } else {
      o := RowsAfterSuffix(rows[1..], key);
      assert rows[1..][o..] == rows[o + 1..];
      o := o + 1;
    }
  }

  lemma {:induction false} HaveRowsDrop(rows: seq<Row>, p: nat)
    requires p < |HaveRows(rows)|
    ensures |HaveRows(rows)| <= |rows| && HaveRows(rows)[p] == rows[p]
    ensures HaveRows(rows)[p + 1..] == HaveRows(rows[p + 1..])
    decreases p
  {
    HaveRowsShort(rows);
    assert HaveRows(rows) == [rows[0]] + HaveRows(rows[1..]);
    if p > 0 {
      HaveRowsDrop(rows[1..], p - 1);
      assert rows[1..][p..] == rows[p + 1..];
      assert HaveRows(rows)[p + 1..] == HaveRows(rows[1..])[p..];
    }
  }

  lemma HaveRowsShort(rows: seq<Row>)
    ensures |HaveRows(rows)| <= |rows|
  {
  }

  lemma NextPage(rows: seq<Row>, key: string, p: nat)
    requires SortedRows(rows) && p < |HaveRows(RowsAfter(rows, key))|
    ensures var have := HaveRows(RowsAfter(rows, key)); HaveRows(RowsAfter(rows, have[p].key)) == have[p + 1..]
  {
    var o := RowsAfterSuffix(rows, key);
    HaveRowsDrop(rows[o..], p);
    SuffixOfSuffix(rows, o, p);
    RowsAfterRow(rows, o + p);
  }

  lemma SuffixOfSuffix(rows: seq<Row>, o: nat, p: nat)
    requires o + p < |rows|
    ensures rows[o..][p] == rows[o + p] && rows[o..][p + 1..] == rows[o + p + 1..]
  {
  }

  // ---- Which rows these are -----------------------------------------------------------------------

  /** Row i is a have row behind the given string. */
  ghost predicate IsHave(rows: seq<Row>, after: string, i: nat) {
    i < |rows| && Lt("have:" + after, rows[i].key) && HasPrefix(rows[i].key, "have:")
  }

  /** Between two strings with a prefix there are only strings with that prefix. */
  lemma {:induction false} Between(p: string, a: string, b: string, c: string)
    requires Lt(p + a, b) && Lt(b, c) && HasPrefix(c, p)
    ensures HasPrefix(b, p)
  {
    if p != [] {
      assert (p + a)[1..] == p[1..] + a && b[0] == p[0] == c[0];
      assert c[1..][..|p| - 1] == c[..|p|][1..];
      Between(p[1..], a, b[1..], c[1..]);
      assert b == [b[0]] + b[1..] && p == [p[0]] + p[1..];
    }
  }

  /** They are one stretch of the rows. */
  lemma HaveStretch(rows: seq<Row>, after: string) returns (o: nat, m: nat)
    requires SortedRows(rows)
    ensures o <= m <= |rows| && HaveRows(RowsAfter(rows, PREFIX + after)) == rows[o..m]
    ensures forall i: nat :: IsHave(rows, after, i) <==> o <= i < m
  {
    o := StretchStart(rows, PREFIX + after);
    var n := StretchEnd(rows[o..]);
    m := o + n;
    assert rows[o..][..n] == rows[o..m];
    forall i: nat ensures IsHave(rows, after, i) <==> o <= i < m {
      if o <= i < |rows| {
        assert rows[o..][i - o] == rows[i];
        if m < i && HasPrefix(rows[i].key, PREFIX) { Between(PREFIX, after, rows[m].key, rows[i].key); }
      }
    }
  }

  lemma {:induction false} StretchStart(rows: seq<Row>, key: string) returns (o: nat)
    requires SortedRows(rows)
    ensures o <= |rows| && RowsAfter(rows, key) == rows[o..]
    ensures forall i :: 0 <= i < |rows| ==> (Lt(key, rows[i].key) <==> o <= i)
  {
    if rows == [] || Lt(key, rows[0].key) {
      o := 0;
      forall i | 0 < i < |rows| ensures Lt(key, rows[i].key) { LtTransitive(key, rows[0].key, rows[i].key); }
    } else {
      o := StretchStart(rows[1..], key);
      assert rows[1..][o..] == rows[o + 1..];
      assert forall i :: 0 < i < |rows| ==> rows[i] == rows[1..][i - 1];
      o := o + 1;
    }
  }

  lemma {:induction false} StretchEnd(rows: seq<Row>) returns (n: nat)
    ensures n <= |rows| && HaveRows(rows) == rows[..n]
    ensures (forall i :: 0 <= i < n ==> HasPrefix(rows[i].key, PREFIX)) && (n < |rows| ==> !HasPrefix(rows[n].key, PREFIX))
  {
    n := 0;
    if rows != [] && HasPrefix(rows[0].key, PREFIX) {
      n := StretchEnd(rows[1..]);
      assert rows[..n + 1] == [rows[0]] + rows[1..][..n];
      n := n + 1;
    }
  }

  /** dest has the blobs of the rows at these positions, in order. */
  ghost predicate Sent(rows: seq<Row>, which: set<nat>, dest: seq<SizedRef>) { ItemsAt(Decode(rows), which, dest) }

  ghost function HavesBefore(rows: seq<Row>, after: string, i: nat): set<nat> {
    set j: nat | j < i && IsHave(rows, after, j)
  }

  /** The have rows behind the string with fewer than `limit` of them before, as far as they decode. */
  ghost function FirstGood(rows: seq<Row>, after: string, limit: nat): set<nat> {
    set i: nat | i < |rows| && IsHave(rows, after, i) && RowBlob(rows[i]).Some? && |HavesBefore(rows, after, i)| < limit
  }

  ghost function AllGood(rows: seq<Row>, after: string): set<nat> {
    set i: nat | i < |rows| && IsHave(rows, after, i) && RowBlob(rows[i]).Some?
  }

  lemma {:induction false} CountHaves(rows: seq<Row>, after: string, o: nat, m: nat, i: nat)
    requires forall j: nat :: IsHave(rows, after, j) <==> o <= j < m
    ensures |HavesBefore(rows, after, i)| == if i <= o then 0 else if i <= m then i - o else if o <= m then m - o else 0
  {
    if i > 0 {
      CountHaves(rows, after, o, m, i - 1);
      var before := HavesBefore(rows, after, i - 1);
      assert HavesBefore(rows, after, i) == if o <= i - 1 < m then before + {i - 1} else before;
    }
  }

  lemma GoodIs(rows: seq<Row>, after: string, limit: nat, o: nat, m: nat)
    requires o <= m <= |rows| && forall i: nat :: IsHave(rows, after, i) <==> o <= i < m
    ensures FirstGood(rows, after, limit) == Good(Decode(rows), o, if m - o <= limit then m else o + limit)
    ensures AllGood(rows, after) == Good(Decode(rows), o, m)
  {
    forall i: nat | i < |rows| ensures Decode(rows)[i] == RowBlob(rows[i]) {}
    forall i: nat | o <= i < m ensures |HavesBefore(rows, after, i)| == i - o { CountHaves(rows, after, o, m, i); }
  }

  /** What is sent of a page, and what there is to send in all. */
  lemma PageIsFirstGood(rows: seq<Row>, after: string, limit: nat)
    requires SortedRows(rows)
    ensures Sent(rows, FirstGood(rows, after, limit), Items(Decode(Cut(HaveRows(RowsAfter(rows, PREFIX + after)), limit))))
    ensures Sent(rows, AllGood(rows, after), Items(Decode(HaveRows(RowsAfter(rows, PREFIX + after)))))
  {
    var o, m := HaveStretch(rows, after);
    var e := if m - o <= limit then m else o + limit;
    assert Cut(rows[o..m], limit) == rows[o..e];
    DecodeStretch(rows, o, e);
    DecodeStretch(rows, o, m);
    GoodItems(Decode(rows), o, e);
    GoodItems(Decode(rows), o, m);
    GoodIs(rows, after, limit, o, m);
  }

  lemma DecodeStretch(rows: seq<Row>, o: nat, m: nat)
    requires o <= m <= |rows|
    ensures Decode(rows[o..m]) == Decode(rows)[o..m]
  {
  }

  datatype Outcome = Done | FnFailed | EnumerateFailed

  /** The blobs that paging from `start` visits, and all that it should. */
  ghost function Visited(rows: seq<Row>, start: string): seq<SizedRef> {
    Emitted(Decode(HaveRows(RowsAfter(rows, PREFIX + start))))
  }

  ghost function Stored(rows: seq<Row>, start: string): seq<SizedRef> {
    Items(Decode(HaveRows(RowsAfter(rows, PREFIX + start))))
  }

  lemma DecodeSlices(rows: seq<Row>, p: nat)
    requires p <= |rows|
    ensures Decode(rows[p..]) == Decode(rows)[p..]
    ensures Decode(Cut(rows, BATCH_SIZE)) == Cut(Decode(rows), BATCH_SIZE)
  {
  }

  lemma PageOf(have: seq<Row>, ch: seq<SizedRef>) returns (p: nat)
    requires ch == Items(Decode(Cut(have, BATCH_SIZE)))
    ensures ch == [] ==> Emitted(Decode(have)) == []
    ensures ch != [] ==>
              && p < |have| && Decode(have)[p] == Some(ch[|ch| - 1])
              && Emitted(Decode(have)) == ch + Emitted(Decode(have)[p + 1..])
  {
    DecodeSlices(have, 0);
    p := 0;
    if ch == [] {
      EmittedNone(Decode(have));
    } else {
      p := EmittedMore(Decode(have), Cut(Decode(have), BATCH_SIZE));
    }
  }

  /** The page behind a key, and what is emitted behind the key of its last good row. */
  lemma PageBehind(rows: seq<Row>, key: string, ch: seq<SizedRef>) returns (row: Row)
    requires SortedRows(rows) && ch == Items(Decode(Cut(HaveRows(RowsAfter(rows, key)), BATCH_SIZE)))
    ensures ch == [] ==> Emitted(Decode(HaveRows(RowsAfter(rows, key)))) == []
    ensures ch != [] ==>
              && RowBlob(row) == Some(ch[|ch| - 1])
              && Emitted(Decode(HaveRows(RowsAfter(rows, key)))) == ch + Emitted(Decode(HaveRows(RowsAfter(rows, row.key))))
              && |HaveRows(RowsAfter(rows, row.key))| < |HaveRows(RowsAfter(rows, key))|
  {
    var have := HaveRows(RowsAfter(rows, key));
    var p := PageOf(have, ch);
    row := Row("", "");
    if ch != [] {
      row := have[p];
      DecodeSlices(have, p + 1);
      NextPage(rows, key, p);
    }
  }

  /** One page of a visit: its blobs, and what follows from the resume string. */
  lemma VisitPage(rows: seq<Row>, after: string, ch: seq<SizedRef>)
    requires SortedRows(rows)
    requires ch == Items(Decode(Cut(HaveRows(RowsAfter(rows, PREFIX + after)), BATCH_SIZE)))
    ensures ch == [] ==> Visited(rows, after) == []
    ensures ch != [] ==>
              var ref := ch[|ch| - 1].ref;
              && WellFormed(ref)
              && Visited(rows, after) == ch + Visited(rows, String(ref))
              && |HaveRows(RowsAfter(rows, PREFIX + String(ref)))| < |HaveRows(RowsAfter(rows, PREFIX + after))|
  {
    var row := PageBehind(rows, PREFIX + after, ch);
    if ch != [] { ResumeAtKey(row); }
  }

  /** The same page, inside a visit that has called fn on `before`. */
  lemma VisitOn(rows: seq<Row>, start: string, before: seq<SizedRef>, after: string, ch: seq<SizedRef>)
    requires SortedRows(rows) && Visited(rows, start) == before + Visited(rows, after)
    requires ch == Items(Decode(Cut(HaveRows(RowsAfter(rows, PREFIX + after)), BATCH_SIZE)))
    ensures before + ch <= Visited(rows, start)
    ensures ch == [] ==> Visited(rows, start) == before
    ensures ch != [] ==>
              var ref := ch[|ch| - 1].ref;
              && WellFormed(ref)
              && Visited(rows, start) == (before + ch) + Visited(rows, String(ref))
              && |HaveRows(RowsAfter(rows, PREFIX + String(ref)))| < |HaveRows(RowsAfter(rows, PREFIX + after))|
  {
    VisitPage(rows, after, ch);
    if ch != [] {
      Associative(before, ch, Visited(rows, String(ch[|ch| - 1].ref)));
    }
  }

  /** No call returned an error. */
  ghost predicate Clean(calls: seq<SizedRef>, fn: (nat, SizedRef) -> bool) {
    forall k: nat :: k < |calls| ==> !fn(k, calls[k])
  }

  /** The last call, and no other, returned an error. */
  ghost predicate StopsAtError(calls: seq<SizedRef>, fn: (nat, SizedRef) -> bool) {
    calls != [] && fn(|calls| - 1, calls[|calls| - 1]) && Clean(calls[..|calls| - 1], fn)
  }

  /** EnumerateAllFrom. fn(k, sb) tells whether the k-th call, on sb, returns an error, and
      closeFails(k) whether the k-th iterator fails to close, in which case some of that page's
      calls may not happen. Every run ends; when all iterators close, fn is called on all there is to
      visit up to its first error, and the run fails exactly if there is one. */
  method EnumerateAllFrom(rows: seq<Row>, start: string, fn: (nat, SizedRef) -> bool, closeFails: nat -> bool)
    returns (calls: seq<SizedRef>, outcome: Outcome)
    requires SortedRows(rows)
    ensures calls <= Visited(rows, start)
    ensures Clean(calls, fn) || StopsAtError(calls, fn)
    ensures outcome == FnFailed ==> StopsAtError(calls, fn)
    ensures outcome == Done ==> calls == Visited(rows, start) && Clean(calls, fn)
    ensures outcome == EnumerateFailed ==> exists k :: closeFails(k)
    ensures (forall k :: !closeFails(k)) ==> outcome == if Clean(Visited(rows, start), fn) then Done else FnFailed
  {
    var after := start;
    calls := [];
    var pages := 0;
    while true
      invariant Visited(rows, start) == calls + Visited(rows, after)
      invariant Clean(calls, fn)
      decreases |HaveRows(RowsAfter(rows, PREFIX + after))|
    {
      var ch := EnumerateBlobs(rows, after, BATCH_SIZE);
      VisitOn(rows, start, calls, after, ch);
      var handled := |ch|;
      var failed := closeFails(pages);
      if failed {
        handled :| 0 <= handled <= |ch|;
      }
      pages := pages + 1;
      ghost var before := calls;
      var fnErr;
      calls, fnErr := CallAll(calls, ch[..handled], fn);
      Prefixes(before, ch, handled, calls, Visited(rows, start));
      if failed {
        return calls, EnumerateFailed;
      }
      if fnErr {
        NotClean(calls, Visited(rows, start), fn);
        return calls, FnFailed;
      }
      if |ch| == 0 {
        return calls, Done;
      }
      after := String(ch[|ch| - 1].ref);
    }
  }

  /** A list that starts with calls up to an error is not free of errors. */
  lemma NotClean(calls: seq<SizedRef>, all: seq<SizedRef>, fn: (nat, SizedRef) -> bool)
    requires calls <= all && StopsAtError(calls, fn)
    ensures !Clean(all, fn)
  {
    assert all[|calls| - 1] == calls[|calls| - 1];
  }

  lemma Prefixes(before: seq<SizedRef>, ch: seq<SizedRef>, handled: nat, calls: seq<SizedRef>, all: seq<SizedRef>)
    requires handled <= |ch| && calls <= before + ch[..handled]
    ensures before + ch <= all ==> calls <= all
    ensures handled == |ch| && calls == before + ch[..handled] ==> calls == before + ch
  {
    assert before + ch[..handled] <= before + ch;
    assert ch[..|ch|] == ch;
  }

  /** The goroutine that drains one page: fn is not called again after an error. */
  method CallAll(before: seq<SizedRef>, ch: seq<SizedRef>, fn: (nat, SizedRef) -> bool)
    returns (calls: seq<SizedRef>, err: bool)
    requires Clean(before, fn)
    ensures before <= calls <= before + ch
    ensures err ==> StopsAtError(calls, fn)
    ensures !err ==> calls == before + ch && Clean(calls, fn)
  {
    calls, err := before, false;
    for i := 0 to |ch|
      invariant before <= calls <= before + ch
      invariant err ==> StopsAtError(calls, fn)
      invariant !err ==> calls == before + ch[..i] && Clean(calls, fn)
    {
      if err {
        continue;
      }
      err := fn(|calls|, ch[i]);
      ghost var sofar := calls;
      calls := calls + [ch[i]];
      assert calls[..|calls| - 1] == sofar;
    }
  }

  /** What is stored behind the start are the blobs of the have rows there that decode, in order. Paging
      visits all of it, and so each blob once, exactly when no full page of undecodable rows precedes one
      that decodes; so always when every row decodes. */
  lemma VisitsAll(rows: seq<Row>, start: string)
    ensures SortedRows(rows) ==> Sent(rows, AllGood(rows, start), Stored(rows, start))
    ensures Visited(rows, start) == Stored(rows, start) <==> !HasGap(Decode(HaveRows(RowsAfter(rows, PREFIX + start))))
    ensures (forall row :: row in rows && HasPrefix(row.key, PREFIX) ==> RowBlob(row).Some?) ==>
              Visited(rows, start) == Stored(rows, start)
  {
    PagingComplete(Decode(HaveRows(RowsAfter(rows, PREFIX + start))));
    if SortedRows(rows) { PageIsFirstGood(rows, start, 0); }
    if forall row :: row in rows && HasPrefix(row.key, PREFIX) ==> RowBlob(row).Some? { NoGap(rows, start); }
  }

  lemma NoGap(rows: seq<Row>, start: string)
    requires forall row :: row in rows && HasPrefix(row.key, PREFIX) ==> RowBlob(row).Some?
    ensures !HasGap(Decode(HaveRows(RowsAfter(rows, PREFIX + start))))
  {
    var have := HaveRows(RowsAfter(rows, PREFIX + start));
    forall i | 0 <= i < |have| ensures Decode(have)[i].Some? {
      HaveRowIsRow(rows, start, i);
      assert RowBlob(have[i]).Some?;
    }
    forall i | 0 <= i && i + BATCH_SIZE < |have| ensures !BadRun(Decode(have), i) {
      assert Decode(have)[i].Some?;
    }
  }

  lemma HaveRowIsRow(rows: seq<Row>, start: string, i: nat)
    requires i < |HaveRows(RowsAfter(rows, PREFIX + start))|
    ensures var row := HaveRows(RowsAfter(rows, PREFIX + start))[i]; row in rows && HasPrefix(row.key, PREFIX)
  {
    var o := RowsAfterSuffix(rows, PREFIX + start);
    HaveRowsDrop(rows[o..], i);
    HavePrefixed(rows[o..], i);
  }

  lemma {:induction false} HavePrefixed(rows: seq<Row>, i: nat)
    requires i < |HaveRows(rows)|
    ensures HasPrefix(HaveRows(rows)[i].key, PREFIX)
  {
    if i > 0 { HavePrefixed(rows[1..], i - 1); }
  }
}
