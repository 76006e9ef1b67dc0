/** Blob references: pkg/blob/ref.go. */
module BlobRef {
  import opened Options
  import opened ByteOrder

  /** A blob.Ref: the zero Ref, a sha1Digest or an otherDigest. The sum holds one char per
      byte; of otherDigest's fixed array only the sumLen valid bytes are kept. */
  datatype Ref =
    | Zero
    | Sha1(sum: string)
    | Other(name: string, sum: string, odd: bool)

  const SHA1_SIZE := 20
  const MAX_OTHER_DIGEST_LEN := 128
  const HEX_DIGIT := "0123456789abcdef"

  predicate Valid(r: Ref) { !r.Zero? }

  function DigestName(r: Ref): string
    requires Valid(r)
  {
    if r.Sha1? then "sha1" else r.name
  }

  /** Ref.Less; invalid references sort first. */
  predicate Less(r: Ref, o: Ref) {
    if Valid(r) != Valid(o) then Valid(o)
    else if !Valid(r) then false
    else if DigestName(r) != DigestName(o) then Lt(DigestName(r), DigestName(o))
    else Lt(r.sum, o.sum)
  }

  // ---- Hex ---------------------------------------------------------------------------------

  predicate IsByte(c: char) { c as int < 256 }

  predicate Bytes(s: string) { forall i :: 0 <= i < |s| ==> IsByte(s[i]) }

  function Hi(c: char): (n: int)
    requires IsByte(c)
    ensures 0 <= n < 16
  {
    c as int / 16
  }

  function Lo(c: char): (n: int)
    requires IsByte(c)
    ensures 0 <= n < 16 && c as int == 16 * Hi(c) + n
  {
    c as int % 16
  }

  function HexDigit(n: int): char
    requires 0 <= n < 16
  {
    HEX_DIGIT[n]
  }

  predicate IsHex(c: char) { '0' <= c <= '9' || 'a' <= c <= 'f' }

  predicate AllHex(hex: string) { forall i :: 0 <= i < |hex| ==> IsHex(hex[i]) }

  function HexVal(c: char): (n: int)
    requires IsHex(c)
    ensures 0 <= n < 16
  {
    if c <= '9' then c as int - '0' as int else c as int - 'a' as int + 10
  }

  function Hex(sum: string): string
    requires Bytes(sum)
  {
    if sum == [] then []
    else [HexDigit(Hi(sum[0])), HexDigit(Lo(sum[0]))] + Hex(sum[1..])
  }

  /** The bytes of an even number of hex digits. */
  function Unhex(hex: string): string
    requires |hex| % 2 == 0 && AllHex(hex)
  {
    if hex == [] then []
    else [(16 * HexVal(hex[0]) + HexVal(hex[1])) as char] + Unhex(hex[2..])
  }

  lemma HexDigitVal(n: int)
    requires 0 <= n < 16
    ensures IsHex(HexDigit(n)) && HexVal(HexDigit(n)) == n
  {
  }

  lemma HexValDigit(c: char)
    requires IsHex(c)
    ensures HexDigit(HexVal(c)) == c
  {
  }

  lemma {:induction false} UnhexHex(sum: string)
    requires Bytes(sum)
    ensures |Hex(sum)| == 2 * |sum| && AllHex(Hex(sum)) && Unhex(Hex(sum)) == sum
  {
    if sum != [] {
      var h := Hex(sum);
      HexDigitVal(Hi(sum[0]));
      HexDigitVal(Lo(sum[0]));
      UnhexHex(sum[1..]);
      assert h[2..] == Hex(sum[1..]);
      assert forall i :: 2 <= i < |h| ==> h[i] == h[2..][i - 2];
    }
  }

  lemma {:induction false} HexUnhex(hex: string)
    requires |hex| % 2 == 0 && AllHex(hex)
    ensures |Unhex(hex)| == |hex| / 2 && Bytes(Unhex(hex)) && Hex(Unhex(hex)) == hex
  {
    if hex != [] {
      HexUnhex(hex[2..]);
      HexValDigit(hex[0]);
      HexValDigit(hex[1]);
      var b := (16 * HexVal(hex[0]) + HexVal(hex[1])) as char;
      assert Hi(b) == HexVal(hex[0]) && Lo(b) == HexVal(hex[1]);
      assert Unhex(hex)[1..] == Unhex(hex[2..]);
      assert hex == [hex[0], hex[1]] + hex[2..];
    }
  }

  // ---- String and parse ----------------------------------------------------------------------

  predicate ValidDigestName(name: string) {
    name != "" && forall i :: 0 <= i < |name| ==> 'a' <= name[i] <= 'z' || '0' <= name[i] <= '9'
  }

  /** What parse can return. */
  predicate WellFormed(r: Ref) {
    match r
    case Zero => false
    case Sha1(sum) => |sum| == SHA1_SIZE && Bytes(sum)
    case Other(name, sum, odd) =>
      && ValidDigestName(name) && name != "sha1"
      && 1 <= |sum| <= MAX_OTHER_DIGEST_LEN
      && Bytes(sum)
      && (odd ==> Lo(sum[|sum| - 1]) == 0)
  }

  /** Hex digits of a sum, without the last when the digest was read from an odd number. */
  function Digits(sum: string, odd: bool): string
    requires Bytes(sum)
  {
    if odd && Hex(sum) != [] then Hex(sum)[..|Hex(sum)| - 1] else Hex(sum)
  }

  function String(r: Ref): string
    requires WellFormed(r)
  {
    DigestName(r) + "-" + Digits(r.sum, r.Other? && r.odd)
  }

  /** strings.Index(s, c) for one byte; |s| when absent. */
  function Index(s: string, c: char): (i: nat)
    ensures i <= |s| && (forall j :: 0 <= j < i ==> s[j] != c) && (i < |s| ==> s[i] == c)
  {
    if s == [] || s[0] == c then 0 else 1 + Index(s[1..], c)
  }

  predicate TestRefType(name: string) { name == "fakeref" || name == "testref" || name == "perma" }

  function ParseUnknown(name: string, hex: string): Option<Ref> {
    var odd := |hex| % 2 != 0;
    var hex := if odd then hex + "0" else hex;
    if ValidDigestName(name) && 2 <= |hex| <= 2 * MAX_OTHER_DIGEST_LEN && AllHex(hex) then
      Some(Other(name, Unhex(hex), odd))
    else None
  }

  function ParseParts(name: string, hex: string, allowAll: bool): Option<Ref> {
    if name == "sha1" then
      if |hex| == 2 * SHA1_SIZE && AllHex(hex) then Some(Sha1(Unhex(hex))) else None
    else if allowAll || TestRefType(name) then ParseUnknown(name, hex)
    else None
  }

  /** parse(s, allowAll): Parse allows every digest name, ParseKnown only known ones. */
  function Parse(s: string, allowAll: bool): Option<Ref> {
    var i := Index(s, '-');
    if i == |s| then None else ParseParts(s[..i], s[i + 1..], allowAll)
  }

  lemma ParseJoin(name: string, hex: string, allowAll: bool)
    requires '-' !in name
    ensures Parse(name + "-" + hex, allowAll) == ParseParts(name, hex, allowAll)
  {
    var s := name + "-" + hex;
    assert s[|name|] == '-';
    assert forall j :: 0 <= j < |name| ==> s[j] == name[j];
    assert s[..|name|] == name && s[|name| + 1..] == hex;
  }

  /** Parsing the string of a parsed ref gives the ref back. */
  lemma ParseOfString(r: Ref)
    requires WellFormed(r)
    ensures Parse(String(r), true) == Some(r)
  {
    ParseJoin(DigestName(r), Digits(r.sum, r.Other? && r.odd), true);
    ParseOfParts(r);
  }

  lemma ParseOfParts(r: Ref)
    requires WellFormed(r)
    ensures ParseParts(DigestName(r), Digits(r.sum, r.Other? && r.odd), true) == Some(r)
  {
    if r.Sha1? { UnhexHex(r.sum); } else { ParseOfUnknown(r.name, r.sum, r.odd); }
  }

  lemma ParseOfUnknown(name: string, sum: string, odd: bool)
    requires WellFormed(Other(name, sum, odd))
    ensures ParseUnknown(name, Digits(sum, odd)) == Some(Other(name, sum, odd))
  {
    UnhexHex(sum);
    var hex := Digits(sum, odd);
    if odd {
      OddDigits(sum);
      assert |hex| % 2 == 1 && hex + "0" == Hex(sum);
    } else {
      assert |hex| % 2 == 0;
    }
  }

  lemma {:induction false} OddDigits(sum: string)
    requires sum != [] && Bytes(sum) && Lo(sum[|sum| - 1]) == 0
    ensures |Hex(sum)| == 2 * |sum| && Digits(sum, true) + "0" == Hex(sum) && Digits(sum, true) != []
  {
    UnhexHex(sum);
    LastDigit(sum);
    var h := Hex(sum);
    assert h == h[..|h| - 1] + [h[|h| - 1]];
  }

  lemma LastDigit(sum: string)
    requires sum != [] && Bytes(sum) && Lo(sum[|sum| - 1]) == 0
    ensures Hex(sum) != [] && Hex(sum)[|Hex(sum)| - 1] == '0'
  {
    if |sum| > 1 { LastDigit(sum[1..]); } else { assert Hex(sum[1..]) == []; }
  }

  /** Every accepted string is the string of its ref. */
  lemma StringOfParse(s: string, allowAll: bool)
    requires Parse(s, allowAll).Some?
    ensures WellFormed(Parse(s, allowAll).value) && String(Parse(s, allowAll).value) == s
  {
    var i := Index(s, '-');
    assert s == s[..i] + "-" + s[i + 1..];
    StringOfParts(s[..i], s[i + 1..], allowAll);
  }

  lemma StringOfParts(name: string, hex: string, allowAll: bool)
    requires ParseParts(name, hex, allowAll).Some?
    ensures var r := ParseParts(name, hex, allowAll).value; WellFormed(r) && String(r) == name + "-" + hex
  {
    if name == "sha1" { HexUnhex(hex); } else { StringOfUnknown(name, hex); }
  }

  lemma StringOfUnknown(name: string, hex: string)
    requires ParseUnknown(name, hex).Some? && name != "sha1"
    ensures var r := ParseUnknown(name, hex).value; r.Other? && WellFormed(r) && r.name == name && Digits(r.sum, r.odd) == hex
  {
    if |hex| % 2 == 0 {
      HexUnhex(hex);
    } else {
      HexUnhex(hex + "0");
      UnhexLast(hex);
    }
  }

  lemma {:induction false} UnhexLast(hex: string)
    requires |hex| % 2 == 1 && AllHex(hex + "0")
    ensures Unhex(hex + "0") != []
    ensures var u := Unhex(hex + "0"); IsByte(u[|u| - 1]) && Lo(u[|u| - 1]) == 0
  {
    if |hex| > 1 {
      var full := hex + "0";
      assert full[2..] == hex[2..] + "0";
      assert forall i :: 0 <= i < |full[2..]| ==> full[2..][i] == full[i + 2];
      UnhexLast(hex[2..]);
    } else {
      assert HexVal('0') == 0;
    }
  }

  /** The strings that stand for a reference: sha1 with 40 hex digits, or another name of lower-case
      letters and digits with 1 to 256 of them, where parse without allowAll takes three test names. */
  predicate Stands(name: string, hex: string, allowAll: bool) {
    && (forall i :: 0 <= i < |hex| ==> '0' <= hex[i] <= '9' || 'a' <= hex[i] <= 'f')
    && if name == "sha1" then |hex| == 40
       else
         && name != "" && (forall i :: 0 <= i < |name| ==> '0' <= name[i] <= '9' || 'a' <= name[i] <= 'z')
         && 1 <= |hex| <= 256 && (allowAll || name == "fakeref" || name == "testref" || name == "perma")
  }

  lemma UnknownParse(name: string, hex: string)
    requires name != "sha1"
    ensures ParseUnknown(name, hex).Some? <==> Stands(name, hex, true)
  {
    var even := if |hex| % 2 != 0 then hex + "0" else hex;
    assert forall i :: 0 <= i < |hex| ==> even[i] == hex[i];
    assert AllHex(even) <==> AllHex(hex);
  }

  lemma PartsParse(name: string, hex: string, allowAll: bool)
    ensures ParseParts(name, hex, allowAll).Some? <==> Stands(name, hex, allowAll)
  {
    if name != "sha1" { UnknownParse(name, hex); }
  }

  /** Exactly these strings parse; the hyphen is the first. */
  lemma ParseIff(s: string, allowAll: bool)
    ensures Parse(s, allowAll).Some? <==>
            exists i :: 0 <= i < |s| && s[i] == '-' && Stands(s[..i], s[i + 1..], allowAll)
  {
    var i := Index(s, '-');
    if i < |s| { PartsParse(s[..i], s[i + 1..], allowAll); }
    forall j | 0 <= j < |s| && s[j] == '-' && j != i ensures !Stands(s[..j], s[j + 1..], allowAll) { NotLater(s, i, j, allowAll); }
  }

  /** No name has a hyphen. */
  lemma NotLater(s: string, i: nat, j: nat, allowAll: bool)
    requires i < j < |s| && s[i] == '-'
    ensures !Stands(s[..j], s[j + 1..], allowAll)
  {
    assert s[..j][i] == '-';
    assert "sha1"[0] != '-' && "sha1"[1] != '-' && "sha1"[2] != '-' && "sha1"[3] != '-';
  }

  // ---- Order -----------------------------------------------------------------------------------

  /** The two readings of one sum: the last hex digit 0 given or implied. */
  predicate Twins(r: Ref, o: Ref) {
    r.Other? && o.Other? && r.name == o.name && r.sum == o.sum && r.odd != o.odd
  }

  /** Less is byte order on the strings, except that it cannot tell twins apart. */
  lemma LessIsStringOrder(r: Ref, o: Ref)
    requires WellFormed(r) && WellFormed(o)
    ensures Less(r, o) <==> Lt(String(r), String(o)) && !Twins(r, o)
  {
    var (n1, n2) := (DigestName(r), DigestName(o));
    var (d1, d2) := (Digits(r.sum, r.Other? && r.odd), Digits(o.sum, o.Other? && o.odd));
    if n1 != n2 {
      NameOrder(n1, d1, n2, d2);
    } else {
      LtPrefix(n1 + "-", d1, d2);
      if r.sum != o.sum {
        DigitOrder(r.sum, r.Other? && r.odd, o.sum, o.Other? && o.odd);
      } else {
        LtIrreflexive(r.sum);
        LtIrreflexive(d1);
      }
    }
  }

  /** A hyphen sorts before every character of a digest name. */
  lemma {:induction false} NameOrder(n1: string, d1: string, n2: string, d2: string)
    requires n1 != n2
    requires (forall i :: 0 <= i < |n1| ==> '-' < n1[i]) && (forall i :: 0 <= i < |n2| ==> '-' < n2[i])
    ensures Lt(n1 + "-" + d1, n2 + "-" + d2) <==> Lt(n1, n2)
  {
    if n1 != [] && n2 != [] && n1[0] == n2[0] {
      assert n1 == [n1[0]] + n1[1..] && n2 == [n2[0]] + n2[1..];
      NameOrder(n1[1..], d1, n2[1..], d2);
      assert (n1 + "-" + d1)[1..] == n1[1..] + "-" + d1 && (n2 + "-" + d2)[1..] == n2[1..] + "-" + d2;
    }
  }

  predicate Trimmed(sum: string, odd: bool) {
    && Bytes(sum)
    && (odd ==> sum != [] && Lo(sum[|sum| - 1]) == 0)
  }

  /** d starts with the digits of byte b; when `end`, b is the last byte and its low digit, a
      zero, is left out. */
  ghost predicate StartsWith(d: string, b: char, end: bool) {
    && IsByte(b)
    && if end then d == [HexDigit(Hi(b))] && Lo(b) == 0
       else |d| >= 2 && d[0] == HexDigit(Hi(b)) && d[1] == HexDigit(Lo(b))
  }

  lemma DigitsCons(sum: string, odd: bool)
    requires Trimmed(sum, odd) && sum != []
    ensures StartsWith(Digits(sum, odd), sum[0], odd && |sum| == 1)
    ensures !(odd && |sum| == 1) ==> Digits(sum, odd)[2..] == Digits(sum[1..], odd)
  {
    UnhexHex(sum);
    UnhexHex(sum[1..]);
    var (h, t) := (Hex(sum), Hex(sum[1..]));
    if odd && |sum| > 1 {
      assert h[..|h| - 1] == h[..2] + t[..|t| - 1];
    }
  }

  lemma {:induction false} DigitOrder(s1: string, o1: bool, s2: string, o2: bool)
    requires Trimmed(s1, o1) && Trimmed(s2, o2) && s1 != s2
    ensures Lt(Digits(s1, o1), Digits(s2, o2)) <==> Lt(s1, s2)
  {
    if s1 == [] {
      DigitsCons(s2, o2);
    } else if s2 == [] {
      DigitsCons(s1, o1);
    } else {
      DigitsCons(s1, o1);
      DigitsCons(s2, o2);
      var (d1, d2) := (Digits(s1, o1), Digits(s2, o2));
      var (end1, end2) := (o1 && |s1| == 1, o2 && |s2| == 1);
      if s1[0] != s2[0] {
        BytesDiffer(d1, s1[0], end1, d2, s2[0], end2);
      } else {
        BytesAgree(d1, end1, d2, end2, s1[0]);
        if end1 || end2 {
          OneChar(s1, s2);
        } else {
          assert s1 == [s1[0]] + s1[1..] && s2 == [s2[0]] + s2[1..];
          DigitOrder(s1[1..], o1, s2[1..], o2);
        }
      }
    }
  }

  lemma BytesDiffer(d1: string, b1: char, end1: bool, d2: string, b2: char, end2: bool)
    requires StartsWith(d1, b1, end1) && StartsWith(d2, b2, end2) && b1 != b2
    ensures Lt(d1, d2) <==> b1 < b2
  {
    HexMonotone(Hi(b1), Hi(b2));
    HexMonotone(Lo(b1), Lo(b2));
    if d1[0] == d2[0] && (|d1| == 1 || |d2| == 1) { OneChar(d1, d2); }
  }

  lemma BytesAgree(d1: string, end1: bool, d2: string, end2: bool, b: char)
    requires StartsWith(d1, b, end1) && StartsWith(d2, b, end2)
    ensures Lt(d1, d2) <==> if end1 || end2 then end1 && !end2 else Lt(d1[2..], d2[2..])
  {
    if end1 || end2 {
      OneChar(d1, d2);
    } else {
      assert d1 == d1[..2] + d1[2..] && d2 == d1[..2] + d2[2..];
      LtPrefix(d1[..2], d1[2..], d2[2..]);
    }
  }

  lemma OneChar(s1: string, s2: string)
    requires s1 != [] && s2 != [] && s1[0] == s2[0] && (|s1| == 1 || |s2| == 1)
    ensures Lt(s1, s2) <==> |s1| < |s2|
    ensures |s1| == |s2| ==> s1 == s2
  {
    if |s1| == |s2| { assert s1 == [s1[0]] && s2 == [s2[0]]; }
  }

  lemma HexMonotone(m: int, n: int)
    requires 0 <= m < 16 && 0 <= n < 16
    ensures HexDigit(m) < HexDigit(n) <==> m < n
    ensures HexDigit(m) == HexDigit(n) <==> m == n
  {
  }

  lemma LessTransitive(a: Ref, b: Ref, c: Ref)
    requires Less(a, b) && Less(b, c)
    ensures Less(a, c)
  {
    if Valid(a) && Valid(b) && Valid(c) {
      var (n1, n2, n3) := (DigestName(a), DigestName(b), DigestName(c));
      if n1 == n2 == n3 {
        LtTransitive(a.sum, b.sum, c.sum);
      } else if n1 != n2 && n2 != n3 {
        LtTransitive(n1, n2, n3);
        LtAsymmetric(n1, n2);
      }
    }
  }

  /** References that Less cannot tell apart compare alike with all others. */
  lemma LessWeak(a: Ref, b: Ref, c: Ref)
    requires Less(a, c)
    ensures Less(a, b) || Less(b, c)
  {
    if Valid(a) && Valid(b) && Valid(c) {
      if DigestName(a) == DigestName(c) {
        LtWeak(a.sum, b.sum, c.sum);
        LtTotal(DigestName(a), DigestName(b));
      } else {
        LtWeak(DigestName(a), DigestName(b), DigestName(c));
      }
    }
  }

  lemma LessIrreflexive(a: Ref)
    ensures !Less(a, a)
  {
    if Valid(a) { LtIrreflexive(a.sum); }
  }

  /** Less is a strict order on all refs; two different parsed refs are incomparable exactly
      when they are twins. */
  lemma LessTotal(a: Ref, b: Ref)
    requires WellFormed(a) && WellFormed(b)
    ensures (a != b && !Less(a, b) && !Less(b, a)) <==> Twins(a, b)
  {
    LtTotal(DigestName(a), DigestName(b));
    LtTotal(a.sum, b.sum);
    LtIrreflexive(a.sum);
  }

  /** Both of these strings parse, to different refs that Less does not order. */
  lemma TwinsExample()
    ensures var (r, o) := (Other("foo", [160 as char], true), Other("foo", [160 as char], false));
            WellFormed(r) && WellFormed(o) && String(r) == "foo-a" && String(o) == "foo-a0" && !Less(r, o) && !Less(o, r)
  {
    var sum := [160 as char];
    assert Hex(sum) == "a0" + Hex(sum[1..]);
    assert Digits(sum, true) == "a" && Digits(sum, false) == "a0";
    LtIrreflexive(sum);
  }

  // ---- The loops of ref.go -------------------------------------------------------------------

  lemma {:induction false} HexSnoc(sum: string, c: char)
    requires Bytes(sum) && IsByte(c)
    ensures Bytes(sum + [c]) && Hex(sum + [c]) == Hex(sum) + [HexDigit(Hi(c)), HexDigit(Lo(c))]
  {
    if sum == [] {
      assert Hex(([c])[1..]) == [];
    } else {
      assert (sum + [c])[1..] == sum[1..] + [c];
      HexSnoc(sum[1..], c);
    }
  }

  method AppendHex(sum: string, buf: string) returns (out: string)
    requires Bytes(sum)
    ensures out == buf + Hex(sum)
  {
    out := buf;
    for i := 0 to |sum|
      invariant out == buf + Hex(sum[..i])
    {
      HexSnoc(sum[..i], sum[i]);
      assert sum[..i + 1] == sum[..i] + [sum[i]];
      out := out + [HexDigit(Hi(sum[i])), HexDigit(Lo(sum[i]))];
    }
    assert sum[..|sum|] == sum;
  }

  /** Ref.appendString. */
  method AppendString(r: Ref, buf: string) returns (out: string)
    requires WellFormed(r)
    ensures out == buf + String(r)
  {
    out := AppendHex(r.sum, buf + DigestName(r) + "-");
    if r.Other? && r.odd {
      UnhexHex(r.sum);
      DropLast(buf + DigestName(r) + "-", Hex(r.sum));
      out := out[..|out| - 1];
    }
    Regroup(buf, DigestName(r), Digits(r.sum, r.Other? && r.odd));
  }

  lemma Regroup(buf: string, name: string, digits: string)
    ensures buf + name + "-" + digits == buf + (name + "-" + digits)
  {
  }

  lemma DropLast(a: string, b: string)
    requires b != []
    ensures (a + b)[..|a + b| - 1] == a + b[..|b| - 1]
  {
  }

  lemma {:induction false} UnhexSnoc(hex: string, hi: char, lo: char)
    requires |hex| % 2 == 0 && AllHex(hex) && IsHex(hi) && IsHex(lo)
    ensures AllHex(hex + [hi, lo]) && Unhex(hex + [hi, lo]) == Unhex(hex) + [(16 * HexVal(hi) + HexVal(lo)) as char]
  {
    if hex == [] {
      assert hex + [hi, lo] == [hi, lo] && [hi, lo][2..] == [];
    } else {
      assert (hex + [hi, lo])[2..] == hex[2..] + [hi, lo];
      UnhexSnoc(hex[2..], hi, lo);
    }
  }

  /** The loop of parseUnknown and sha1FromHexString: fills the front of the digest array and
      notes a bad digit instead of stopping. */
  method FillSum(d: array<char>, hex: string) returns (bad: bool)
    requires |hex| % 2 == 0 && |hex| / 2 <= d.Length
    modifies d
    ensures bad <==> !AllHex(hex)
    ensures !bad ==> d[..|hex| / 2] == Unhex(hex)
    ensures d[|hex| / 2..] == old(d[|hex| / 2..])
  {
    bad := false;
    var i := 0;
    while i < |hex|
      invariant 0 <= i <= |hex| && i % 2 == 0
      invariant bad <==> !AllHex(hex[..i])
      invariant !bad ==> d[..i / 2] == Unhex(hex[..i])
      invariant d[|hex| / 2..] == old(d[|hex| / 2..])
    {
      var (hi, lo) := (hex[i], hex[i + 1]);
      assert hex[..i + 2] == hex[..i] + [hi, lo];
      assert AllHex(hex[..i + 2]) <==> AllHex(hex[..i]) && IsHex(hi) && IsHex(lo) by { AllHexSnoc(hex[..i], hi, lo); }
      if !bad && IsHex(hi) && IsHex(lo) { UnhexSnoc(hex[..i], hi, lo); }
      bad := bad || !IsHex(hi) || !IsHex(lo);
      d[i / 2] := (16 * (if IsHex(hi) then HexVal(hi) else 0) + (if IsHex(lo) then HexVal(lo) else 0)) as char;
      i := i + 2;
    }
    assert hex[..i] == hex;
  }

  lemma AllHexSnoc(hex: string, hi: char, lo: char)
    ensures AllHex(hex + [hi, lo]) <==> AllHex(hex) && IsHex(hi) && IsHex(lo)
  {
    var s := hex + [hi, lo];
    assert forall i :: 0 <= i < |hex| ==> s[i] == hex[i];
    assert s[|hex|] == hi && s[|hex| + 1] == lo;
  }
}
