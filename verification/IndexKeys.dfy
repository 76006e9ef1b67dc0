/** Index keys and their prefixes: pkg/index/keys.go. */
module IndexKeys {
  import opened Options
  import opened BlobRef
  import opened ByteOrder
  import opened Decimals
  import opened ReverseTimes

  datatype PartType = KeyId | Time | ReversedTime | RefPart | Str | IntStr | RawStr

  /** An argument: a string or something with a String method, or an integer. */
  datatype Arg = Text(s: string) | Int(n: int)

  datatype KeyType = KeyType(name: string, keyParts: seq<PartType>, valParts: seq<PartType>)

  /** url.QueryEscape, of which only this is used: it tells strings apart and leaves no pipe. */
  ghost predicate Escapes(esc: string -> string) {
    (forall s, t :: esc(s) == esc(t) ==> s == t) && (forall s :: PipeFree(esc(s)))
  }

  predicate PipeFree(s: string) { '|' !in s }

  /** The check of build on times. */
  predicate LooksLikeTime(s: string) {
    |s| >= |"2011-01-23T05:23:12"| && (s[4] == '-' || s[10] == 'T')
  }

  /** What build writes for one argument; None when it panics. */
  function Encode(esc: string -> string, typ: PartType, arg: Arg): Option<string> {
    match (typ, arg)
    case (IntStr, Int(n)) => Some(SignedNumeral(n))
    case (IntStr, Text(_)) => None
    case (_, Int(_)) => None
    case (Str, Text(s)) => Some(esc(s))
    case (ReversedTime, Text(s)) => if LooksLikeTime(s) then Some(ReverseTime(s)) else None
    case (_, Text(s)) => Some(s)
  }

  function EncodeAll(esc: string -> string, parts: seq<PartType>, args: seq<Arg>): Option<seq<string>>
    requires |args| <= |parts|
  {
    if forall j :: 0 <= j < |args| ==> Encode(esc, parts[j], args[j]).Some? then
      Some(seq(|args|, j requires 0 <= j < |args| => Encode(esc, parts[j], args[j]).value))
    else None
  }

  /** Every field after a pipe. */
  function Piped(es: seq<string>): string {
    if es == [] then "" else Piped(es[..|es| - 1]) + "|" + es[|es| - 1]
  }

  /** Pipes between the fields. */
  function Joined(es: seq<string>): string {
    if |es| == 0 then "" else if |es| == 1 then es[0] else Joined(es[..|es| - 1]) + "|" + es[|es| - 1]
  }

  function Written(isKey: bool, name: string, es: seq<string>): string { if isKey then name + Piped(es) else Joined(es) }

  function Built(esc: string -> string, name: string, isPrefix: bool, isKey: bool, parts: seq<PartType>, args: seq<Arg>): Option<string> {
    if (!isPrefix && |args| != |parts|) || |args| > |parts| then None
    else
      match EncodeAll(esc, parts, args)
      case None => None
      case Some(es) => Some(if isPrefix then Written(isKey, name, es) + "|" else Written(isKey, name, es))
  }

  function Key(esc: string -> string, k: KeyType, args: seq<Arg>): Option<string> { Built(esc, k.name, false, true, k.keyParts, args) }

  function Prefix(esc: string -> string, k: KeyType, args: seq<Arg>): Option<string> { Built(esc, k.name, true, true, k.keyParts, args) }

  /** keyType.build: appends part by part. */
  method Build(esc: string -> string, name: string, isPrefix: bool, isKey: bool, parts: seq<PartType>, args: seq<Arg>) returns (r: Option<string>)
    ensures r == Built(esc, name, isPrefix, isKey, parts, args)
  {
    var buf := "";
    if isKey {
      buf := buf + name;
    }
    if !isPrefix && |args| != |parts| {
      return None;
    }
    if |args| > |parts| {
      return None;
    }
    ghost var es: seq<string> := [];
    NothingWritten(isKey, name);
    for i := 0 to |args|
      invariant |es| == i && forall j :: 0 <= j < i ==> Encode(esc, parts[j], args[j]) == Some(es[j])
      invariant buf == Written(isKey, name, es)
    {
      var e := Encode(esc, parts[i], args[i]);
      if e.None? {
        return None;
      }
      WriteOne(isKey, name, es, e.value);
      if isKey || i > 0 {
        buf := buf + "|";
      }
      buf := buf + e.value;
      es := es + [e.value];
    }
    EncodedAt(esc, parts, args, es);
    if isPrefix {
      buf := buf + "|";
    }
    return Some(buf);
  }

  lemma NothingWritten(isKey: bool, name: string)
    ensures Written(isKey, name, []) == if isKey then "" + name else ""
  {
    assert name + Piped([]) == name == "" + name;
  }

  lemma WriteOne(isKey: bool, name: string, es: seq<string>, e: string)
    ensures Written(isKey, name, es + [e]) ==
            if isKey || |es| > 0 then Written(isKey, name, es) + "|" + e else Written(isKey, name, es) + e
  {
    assert (es + [e])[..|es|] == es && (es + [e])[|es|] == e;
    assert name + (Piped(es) + "|" + e) == name + Piped(es) + "|" + e;
    assert "" + e == e;
  }

  lemma EncodedAt(esc: string -> string, parts: seq<PartType>, args: seq<Arg>, es: seq<string>)
    requires |args| <= |parts|
    ensures EncodeAll(esc, parts, args) == Some(es) <==>
            |es| == |args| && forall j :: 0 <= j < |args| ==> Encode(esc, parts[j], args[j]) == Some(es[j])
  {
    if |es| == |args| && forall j :: 0 <= j < |args| ==> Encode(esc, parts[j], args[j]) == Some(es[j]) {
      assert es == EncodeAll(esc, parts, args).value;
    }
  }

  // ---- What is accepted, and what is written --------------------------------------------------------

  /** The part takes the argument: integers for integer parts, text for the others, and a reversed time
      must have at least 19 characters and a date's first dash or the T before the time of day. */
  predicate Accepts(typ: PartType, arg: Arg) {
    if typ == IntStr then arg.Int?
    else arg.Text? && (typ == ReversedTime ==> |arg.s| >= 19 && (arg.s[4] == '-' || arg.s[10] == 'T'))
  }

  /** build panics on a wrong number of arguments and on those that their parts do not take, and on
      no others. */
  lemma BuiltIff(esc: string -> string, name: string, isPrefix: bool, isKey: bool, parts: seq<PartType>, args: seq<Arg>)
    ensures Built(esc, name, isPrefix, isKey, parts, args).Some? <==>
            && (if isPrefix then |args| <= |parts| else |args| == |parts|)
            && forall j :: 0 <= j < |args| && j < |parts| ==> Accepts(parts[j], args[j])
  {
    if |args| <= |parts| {
      forall j | 0 <= j < |args| ensures Encode(esc, parts[j], args[j]).Some? <==> Accepts(parts[j], args[j]) {}
    }
  }

  /** Times that have the form of RFC 3339 up to the second are taken, whatever follows. */
  lemma StampAccepted(t: Stamp)
    requires SameShape(t.seconds, "2011-01-23T05:23:12")
    ensures Accepts(ReversedTime, Text(Format(t)))
  {
    assert Format(t)[4] == t.seconds[4] && Format(t)[10] == t.seconds[10];
    assert t.seconds[4] == "2011-01-23T05:23:12"[4];
  }

  /** How an argument that its part takes appears in the key. */
  function Shown(esc: string -> string, typ: PartType, arg: Arg): string
    requires Accepts(typ, arg)
  {
    match arg
    case Int(n) => SignedNumeral(n)
    case Text(s) => match typ case Str => esc(s) case ReversedTime => "rt" + Rev(s) case _ => s
  }

  /** A value has its parts in the same way, without a name and a pipe in front. */
  lemma ValLikeKey(esc: string -> string, name: string, parts: seq<PartType>, args: seq<Arg>)
    requires Built(esc, name, false, false, parts, args).Some?
    ensures var val := Built(esc, name, false, false, parts, args).value;
            if args == [] then val == "" else Built(esc, "", false, true, parts, args) == Some("|" + val)
  {
    var es := EncodeAll(esc, parts, args).value;
    if es != [] { JoinedPiped(es); }
    assert "" + Piped(es) == Piped(es);
  }

  lemma {:induction false} JoinedPiped(es: seq<string>)
    requires es != []
    ensures Piped(es) == "|" + Joined(es)
  {
    var k := |es| - 1;
    if k > 0 {
      JoinedPiped(es[..k]);
    } else {
      assert es[..0] == [];
    }
  }

  /** A key is the prefix for the arguments before part i, that part, and the rest: nothing, or more
      parts after a pipe. */
  lemma PartInKey(esc: string -> string, k: KeyType, args: seq<Arg>, i: nat) returns (rest: string)
    requires Key(esc, k, args).Some? && i < |args|
    ensures Accepts(k.keyParts[i], args[i]) && Prefix(esc, k, args[..i]).Some?
    ensures Key(esc, k, args).value == Prefix(esc, k, args[..i]).value + Shown(esc, k.keyParts[i], args[i]) + rest
    ensures if i == |args| - 1 then rest == "" else "|" <= rest
  {
    var es := EncodeAll(esc, k.keyParts, args).value;
    assert Encode(esc, k.keyParts[i], args[i]) == Some(es[i]);
    assert es[i] == Shown(esc, k.keyParts[i], args[i]);
    FrontEncoded(esc, k.keyParts, args, i);
    assert es == es[..i] + es[i..];
    PipedConcat(es[..i], es[i..]);
    PipedFront(es[i..]);
    rest := Piped(es[i + 1..]);
    assert es[i..][1..] == es[i + 1..];
    Around(k.name, Piped(es[..i]), es[i], rest);
    if i < |args| - 1 { PipedFront(es[i + 1..]); }
  }

  lemma Around(name: string, front: string, e: string, rest: string)
    ensures name + (front + ("|" + (e + rest))) == name + front + "|" + e + rest
  {
  }

  lemma FrontEncoded(esc: string -> string, parts: seq<PartType>, args: seq<Arg>, i: nat)
    requires i <= |args| <= |parts| && EncodeAll(esc, parts, args).Some?
    ensures EncodeAll(esc, parts, args[..i]) == Some(EncodeAll(esc, parts, args).value[..i])
  {
    var es := EncodeAll(esc, parts, args).value;
    forall j | 0 <= j < i ensures Encode(esc, parts[j], args[..i][j]) == Some(es[j]) {}
    EncodedAt(esc, parts, args[..i], es[..i]);
  }

  /** Different arguments are written differently. */
  lemma EncodeInjective(esc: string -> string, typ: PartType, a: Arg, b: Arg)
    requires Escapes(esc) && Encode(esc, typ, a) == Encode(esc, typ, b) && Encode(esc, typ, a).Some?
    ensures a == b
  {
    match typ
    case IntStr => SignedInjective(a.n, b.n);
    case ReversedTime =>
      RoundTrip(a.s);
      RoundTrip(b.s);
    case _ =>
  }

  // ---- Prefixes -------------------------------------------------------------------------------------

  lemma {:induction false} PipedFront(es: seq<string>)
    requires es != []
    ensures Piped(es) == "|" + (es[0] + Piped(es[1..]))
  {
    var k := |es| - 1;
    if k > 0 {
      PipedFront(es[..k]);
      assert es[1..][..k - 1] == es[..k][1..] && es[1..][k - 1] == es[k];
    }
  }

  lemma {:induction false} FirstField(a: string, x: string, b: string, y: string)
    requires PipeFree(a) && PipeFree(b)
    ensures b + ("|" + y) <= a + ("|" + x) <==> a == b && y <= x
    decreases |a|
  {
    var (p, q) := (b + ("|" + y), a + ("|" + x));
    SameStart(p, q);
    assert p[0] == (if b == [] then '|' else b[0]) && q[0] == (if a == [] then '|' else a[0]);
    if a == [] && b == [] {
      assert p[1..] == y && q[1..] == x;
    } else if a != [] && b != [] {
      assert p[1..] == b[1..] + ("|" + y) && q[1..] == a[1..] + ("|" + x);
      FirstField(a[1..], x, b[1..], y);
      SameStart(a, b);
    }
  }

  lemma NoField(a: string, b: string, y: string)
    requires PipeFree(a)
    ensures !(b + ("|" + y) <= a)
  {
    var p := b + ("|" + y);
    assert p[|b|] == '|';
    assert |b| < |a| ==> a[|b|] != p[|b|];
  }

  ghost predicate AllPipeFree(es: seq<string>) { forall i :: 0 <= i < |es| ==> PipeFree(es[i]) }

  /** A name and fields with a closing pipe start exactly the keys with that name and those fields
      first, and at least one more. */
  lemma {:induction false} FieldsMatch(n: string, es: seq<string>, m: string, fs: seq<string>)
    requires PipeFree(n) && PipeFree(m) && AllPipeFree(es) && AllPipeFree(fs)
    ensures m + Piped(fs) + "|" <= n + Piped(es) <==> m == n && |fs| < |es| && fs == es[..|fs|]
    decreases |es|
  {
    var p := m + Piped(fs) + "|";
    if es == [] {
      assert n + Piped(es) == n;
      if fs == [] {
        assert p == m + ("|" + "");
        NoField(n, m, "");
      } else {
        PipedFront(fs);
        assert p == m + ("|" + (fs[0] + Piped(fs[1..]) + "|"));
        NoField(n, m, fs[0] + Piped(fs[1..]) + "|");
      }
    } else {
      PipedFront(es);
      if fs == [] {
        assert p == m + ("|" + "");
        FirstField(n, es[0] + Piped(es[1..]), m, "");
      } else {
        PipedFront(fs);
        assert p == m + ("|" + (fs[0] + Piped(fs[1..]) + "|"));
        FirstField(n, es[0] + Piped(es[1..]), m, fs[0] + Piped(fs[1..]) + "|");
        FieldsMatch(es[0], es[1..], fs[0], fs[1..]);
        FieldsStep(es, fs);
      }
    }
  }

  lemma FieldsStep(es: seq<string>, fs: seq<string>)
    requires es != [] && fs != []
    ensures |fs| < |es| && fs == es[..|fs|] <==> fs[0] == es[0] && |fs[1..]| < |es[1..]| && fs[1..] == es[1..][..|fs| - 1]
  {
    if |fs| < |es| {
      assert es[..|fs|] == [es[0]] + es[1..][..|fs| - 1];
      assert fs == [fs[0]] + fs[1..];
      assert es[..|fs|][1..] == es[1..][..|fs| - 1];
    }
  }

  /** Text that is written as it is, or as a reversed time, has no pipe. Nothing is asked of numbers
      and of text that is escaped. */
  ghost predicate RawPipeFree(parts: seq<PartType>, args: seq<Arg>)
    requires |args| <= |parts|
  {
    forall j :: 0 <= j < |args| && args[j].Text? && parts[j] != Str ==> PipeFree(args[j].s)
  }

  lemma EncodedPipeFree(esc: string -> string, typ: PartType, arg: Arg)
    requires Escapes(esc) && Encode(esc, typ, arg).Some? && (arg.Text? && typ != Str ==> PipeFree(arg.s))
    ensures PipeFree(Encode(esc, typ, arg).value)
  {
    if arg.Int? {
      SignedChars(arg.n, '|');
    } else if typ == ReversedTime {
      RevPipeFree(arg.s);
    }
  }

  lemma RevPipeFree(s: string)
    requires PipeFree(s)
    ensures PipeFree(ReverseTime(s))
  {
    forall i | 0 <= i < |s| ensures Rev(s)[i] != '|' { assert s[i] in s; }
  }

  lemma PartsPipeFree(esc: string -> string, parts: seq<PartType>, args: seq<Arg>)
    requires Escapes(esc) && |args| <= |parts| && RawPipeFree(parts, args) && EncodeAll(esc, parts, args).Some?
    ensures AllPipeFree(EncodeAll(esc, parts, args).value)
  {
    var es := EncodeAll(esc, parts, args).value;
    forall j | 0 <= j < |es| ensures PipeFree(es[j]) { EncodedPipeFree(esc, parts[j], args[j]); }
  }

  /** A Prefix finds exactly the keys of its type that start with its arguments; one that gives
      all parts finds none. */
  lemma PrefixFinds(esc: string -> string, k: KeyType, args: seq<Arg>, k': KeyType, first: seq<Arg>)
    requires Escapes(esc) && PipeFree(k.name) && PipeFree(k'.name)
    requires k.name == k'.name ==> k == k'
    requires Key(esc, k, args).Some? && Prefix(esc, k', first).Some?
    requires RawPipeFree(k.keyParts, args) && RawPipeFree(k'.keyParts, first)
    ensures Prefix(esc, k', first).value <= Key(esc, k, args).value <==> k == k' && |first| < |args| && first == args[..|first|]
  {
    var (es, fs) := (EncodeAll(esc, k.keyParts, args).value, EncodeAll(esc, k'.keyParts, first).value);
    PartsPipeFree(esc, k.keyParts, args);
    PartsPipeFree(esc, k'.keyParts, first);
    FieldsMatch(k.name, es, k'.name, fs);
    assert Key(esc, k, args).value == k.name + Piped(es);
    if k == k' && |first| < |args| { SameFields(esc, k.keyParts, args, first); }
  }

  lemma SameFields(esc: string -> string, parts: seq<PartType>, args: seq<Arg>, first: seq<Arg>)
    requires Escapes(esc) && |first| < |args| <= |parts| && EncodeAll(esc, parts, args).Some? && EncodeAll(esc, parts, first).Some?
    ensures EncodeAll(esc, parts, first).value == EncodeAll(esc, parts, args).value[..|first|] <==> first == args[..|first|]
  {
    var (es, fs) := (EncodeAll(esc, parts, args).value, EncodeAll(esc, parts, first).value);
    if fs == es[..|first|] {
      forall j | 0 <= j < |first| ensures first[j] == args[j] {
        assert fs[j] == es[j];
        EncodeInjective(esc, parts[j], first[j], args[j]);
      }
    }
    if first == args[..|first|] {
      forall j | 0 <= j < |first| ensures fs[j] == es[j] {
        assert first[j] == args[j];
      }
    }
  }

  // ---- Types of keys --------------------------------------------------------------------------------

  /** typeOfKey. */
  function TypeOfKey(k: string): string {
    var (c, p) := (Index(k, ':'), Index(k, '|'));
    if c == |k| && p == |k| then ""
    else if c == |k| then k[..p]
    else if p == |k| then k[..c]
    else if p < c then k[..p] else k[..c]
  }

  lemma TypeFound(name: string, sep: char, rest: string)
    requires sep == ':' || sep == '|'
    requires PipeFree(name) && ':' !in name
    ensures TypeOfKey(name + ([sep] + rest)) == name
  {
    var k := name + ([sep] + rest);
    assert k[|name|] == sep && forall i :: 0 <= i < |name| ==> k[i] == name[i];
    assert k[..|name|] == name;
  }

  /** typeOfKey recovers the type of every key that has parts, and of every prefix; of a key
      without parts it does not. */
  lemma TypeRecovered(esc: string -> string, k: KeyType, args: seq<Arg>)
    requires PipeFree(k.name) && ':' !in k.name
    ensures Key(esc, k, args).Some? ==> TypeOfKey(Key(esc, k, args).value) == if args == [] then "" else k.name
    ensures Prefix(esc, k, args).Some? ==> TypeOfKey(Prefix(esc, k, args).value) == k.name
  {
    if Prefix(esc, k, args).Some? {
      var es := EncodeAll(esc, k.keyParts, args).value;
      if es == [] {
        assert Prefix(esc, k, args).value == k.name + ("|" + "");
        TypeFound(k.name, '|', "");
        assert Key(esc, k, args).Some? ==> Key(esc, k, args).value == k.name;
      } else {
        PipedFront(es);
        var rest := es[0] + Piped(es[1..]);
        assert Prefix(esc, k, args).value == k.name + ("|" + (rest + "|"));
        TypeFound(k.name, '|', rest + "|");
        assert Key(esc, k, args).Some? ==> Key(esc, k, args).value == k.name + ("|" + rest);
        TypeFound(k.name, '|', rest);
      }
    }
  }

  // ---- Newest first ---------------------------------------------------------------------------------

  lemma {:induction false} PipedConcat(a: seq<string>, b: seq<string>)
    ensures Piped(a + b) == Piped(a) + Piped(b)
  {
    if b == [] {
      assert a + b == a;
    } else {
      var k := |b| - 1;
      PipedConcat(a, b[..k]);
      assert (a + b)[..|a + b| - 1] == a + b[..k];
    }
  }

  /** A key around its part i. */
  lemma KeyAround(name: string, es: seq<string>, i: nat, e: string)
    requires i < |es| && es[i] == "rt" + e
    ensures name + Piped(es) == (name + Piped(es[..i]) + "|rt") + (e + Piped(es[i + 1..]))
  {
    assert es == es[..i] + es[i..];
    PipedConcat(es[..i], es[i..]);
    PipedFront(es[i..]);
    assert es[i..][1..] == es[i + 1..];
    Regrouped(name, Piped(es[..i]), e, Piped(es[i + 1..]));
  }

  lemma Regrouped(name: string, a: string, e: string, b: string)
    ensures name + (a + ("|" + ("rt" + e + b))) == (name + a + "|rt") + (e + b)
  {
    assert "|" + ("rt" + e + b) == "|rt" + (e + b);
  }

  /** Two keys of one type that agree up to a reversed time differ as those times do. */
  lemma TimeDecides(esc: string -> string, k: KeyType, i: nat, args: seq<Arg>, args': seq<Arg>)
    returns (head: string, x: string, y: string)
    requires Key(esc, k, args).Some? && Key(esc, k, args').Some?
    requires i < |k.keyParts| && k.keyParts[i] == ReversedTime && args[..i] == args'[..i]
    ensures args[i].Text? && args'[i].Text?
    ensures Key(esc, k, args).value == head + (Rev(args[i].s) + x) && Key(esc, k, args').value == head + (Rev(args'[i].s) + y)
  {
    var (es, fs) := (EncodeAll(esc, k.keyParts, args).value, EncodeAll(esc, k.keyParts, args').value);
    EncodedAt(esc, k.keyParts, args, es);
    EncodedAt(esc, k.keyParts, args', fs);
    forall j | 0 <= j < i ensures es[j] == fs[j] {
      assert args[..i][j] == args'[..i][j];
    }
    assert es[..i] == fs[..i];
    assert Encode(esc, k.keyParts[i], args[i]) == Some(es[i]) && Encode(esc, k.keyParts[i], args'[i]) == Some(fs[i]);
    KeyAround(k.name, es, i, Rev(args[i].s));
    KeyAround(k.name, fs, i, Rev(args'[i].s));
    head, x, y := k.name + Piped(es[..i]) + "|rt", Piped(es[i + 1..]), Piped(fs[i + 1..]);
  }

  /** Keys whose earlier parts agree and whose times have one shape sort newest first. */
  lemma SameShapeNewestFirst(esc: string -> string, k: KeyType, i: nat, args: seq<Arg>, args': seq<Arg>)
    requires Key(esc, k, args).Some? && Key(esc, k, args').Some?
    requires i < |k.keyParts| && k.keyParts[i] == ReversedTime && args[..i] == args'[..i]
    requires args[i].Text? && args'[i].Text? && args[i].s != args'[i].s && SameShape(args[i].s, args'[i].s)
    ensures Lt(Key(esc, k, args').value, Key(esc, k, args).value) <==> Number(args[i].s) < Number(args'[i].s)
  {
    var head, x, y := TimeDecides(esc, k, i, args, args');
    var (s, t) := (args[i].s, args'[i].s);
    LtPrefix(head, Rev(t) + y, Rev(s) + x);
    RevInjective(s, t);
    DecidedEarly(Rev(t), Rev(s), y, x);
    SameShapeOrder(s, t);
    NumberOrder(s, t);
  }

  /** Keys whose earlier parts agree sort newest first by the times schema.RFC3339FromTime
      writes: always in UTC, otherwise as stated. */
  lemma StampsNewestFirst(esc: string -> string, k: KeyType, i: nat, args: seq<Arg>, args': seq<Arg>, s: Stamp, t: Stamp)
    requires Key(esc, k, args).Some? && Key(esc, k, args').Some?
    requires i < |k.keyParts| && k.keyParts[i] == ReversedTime && args[..i] == args'[..i]
    requires args[i] == Text(Format(s)) && args'[i] == Text(Format(t)) && ReverseTimes.Comparable(s, t) && Before(s, t)
    ensures Lt(Key(esc, k, args').value, Key(esc, k, args).value) <==>
            SortsHigh(s.zone) || !(s.seconds == t.seconds && s.fraction <= t.fraction)
  {
    var head, x, y := TimeDecides(esc, k, i, args, args');
    LtPrefix(head, Rev(Format(t)) + y, Rev(Format(s)) + x);
    NewestFirst(s, t, x, y);
  }
}
