/** The JSON encoder (`ggl-json/src/json_encode.c`): when it succeeds, what it writes, and for which objects the
    decoder gives the object back. */
module JsonEncode {
  import opened Buffer
  import opened JsonSyntax
  import opened JsonTree
  import opened JsonUnescape
  import opened JsonDecode
  import opened Int64Text
  import opened Objects

  /** The text printed for the bits of a double (`%g`). */
  type Printf = uint64 -> bytes

  // ---- The text of an object ----

  function HexDigit(n: nat): (c: byte)
    requires n < 16
    ensures IsHex(c) && HexValue(c) == n
  {
    if n < 10 then (48 + n) as byte else (55 + n) as byte
  }

  function EscapedByte(c: byte): (s: bytes)
    ensures s != []
  {
    if c == QUOTE || c == BACKSLASH then [BACKSLASH, c]
    else if c <= 0x1F then [BACKSLASH, LOWER_U, 48, 48, HexDigit(c as int / 16), HexDigit(c as int % 16)]
    else [c]
  }

  function Escaped(s: bytes): bytes {
    if s == [] then [] else EscapedByte(s[0]) + Escaped(s[1..])
  }

  function Encoded(o: Obj, printf: Printf): bytes
    decreases o, 0
  {
    match o
    case Null => NULL_TEXT
    case Bool(b) => if b then TRUE_TEXT else FALSE_TEXT
    case I64(i) => Decimal(i)
    case F64(bits) => printf(bits)
    case Buf(s) => StrText(Escaped(s))
    case Collection(isMap, es) => [Open(isMap)] + (EncodedEntries(isMap, es, printf) + [Close(isMap)])
  }

  function EncodedEntry(isMap: bool, e: KV, printf: Printf): bytes
    decreases e, 1
  {
    (if isMap then StrText(Escaped(e.key)) + [COLON] else []) + Encoded(e.val, printf)
  }

  function EncodedEntries(isMap: bool, es: seq<KV>, printf: Printf): bytes
    decreases es, 2
  {
    if es == [] then []
    else if |es| == 1 then EncodedEntry(isMap, es[0], printf)
    else EncodedEntry(isMap, es[0], printf) + ([COMMA] + EncodedEntries(isMap, es[1..], printf))
  }

  // ---- The tree of an object ----

  predicate NoFloats(o: Obj)
    decreases o, 0
  {
    !o.F64? && (o.Collection? ==> NoFloatEntries(o.entries))
  }

  predicate NoFloatEntries(es: seq<KV>)
    decreases es, 1
  {
    es != [] ==> NoFloats(es[0].val) && NoFloatEntries(es[1..])
  }

  function Bare(n: Node): Tree { Tree([], n, []) }

  function NumberOf(x: int): Number { Number(x < 0, Digits(if x < 0 then -x else x), None, None) }

  /** The tree of an object's text, without white space. */
  function NodeOf(o: Obj): Node
    requires NoFloats(o)
    decreases o, 0
  {
    match o
    case Null => WordNode(NullWord)
    case Bool(b) => WordNode(if b then TrueWord else FalseWord)
    case I64(i) => NumNode(NumberOf(i))
    case Buf(s) => StrNode(Escaped(s))
    case Collection(isMap, es) => CollNode(isMap, [], EntriesOf(isMap, es))
  }

  function EntriesOf(isMap: bool, es: seq<KV>): (r: seq<Entry>)
    requires NoFloatEntries(es)
    ensures |r| == |es|
    decreases es, 1
  {
    if es == [] then []
    else [Entry([], if isMap then Escaped(es[0].key) else [], [], Bare(NodeOf(es[0].val)))] + EntriesOf(isMap, es[1..])
  }

  lemma {:induction false} EncodedIsText(o: Obj, printf: Printf)
    requires NoFloats(o)
    ensures Encoded(o, printf) == NodeText(NodeOf(o))
    decreases o, 0
  {
    hide NoFloatEntries, EncodedEntries, EntriesOf, EntriesText, Escaped, Digits;
    match o
    case Null =>
    case Bool(_) =>
    case I64(i) => assert NumberText(NumberOf(i)) == Decimal(i);
    case Buf(s) =>
    case Collection(isMap, es) =>
      EncodedEntriesAreText(isMap, es, printf);
      var body := EncodedEntries(isMap, es, printf) + [Close(isMap)];
      assert [] + body == body;
  }

  lemma {:induction false} EncodedEntriesAreText(isMap: bool, es: seq<KV>, printf: Printf)
    requires NoFloatEntries(es)
    ensures EncodedEntries(isMap, es, printf) == EntriesText(isMap, EntriesOf(isMap, es))
    decreases es, 1
  {
    hide NoFloats, Encoded, NodeOf, NodeText, Escaped, StrText;
    if es != [] {
      EncodedIsText(es[0].val, printf);
      EncodedEntriesAreText(isMap, es[1..], printf);
      var ts := EntriesOf(isMap, es);
      assert ts[1..] == EntriesOf(isMap, es[1..]);
      BareEntry(isMap, es[0], ts[0], printf);
    }
  }

  lemma BareEntry(isMap: bool, e: KV, t: Entry, printf: Printf)
    requires NoFloats(e.val) && Encoded(e.val, printf) == NodeText(NodeOf(e.val))
    requires t == Entry([], if isMap then Escaped(e.key) else [], [], Bare(NodeOf(e.val)))
    ensures EncodedEntry(isMap, e, printf) == EntryText(isMap, t)
  {
    hide NoFloats, Encoded, NodeOf, NodeText, Escaped, StrText;
    var v := NodeText(NodeOf(e.val));
    assert [] + (v + []) == v;
    assert TreeText(t.val) == v;
    if isMap {
      var k := StrText(t.key);
      assert [] + (k + ([] + [COLON])) == k + [COLON];
    } else {
      assert [] + v == v;
    }
  }

  // ---- Strings that survive ----

  /** The bytes that the encoder writes and the decoder reads back: ASCII without the control characters below
      the space. */
  predicate IsPrintable(s: bytes) { forall c | c in s :: 0x20 <= c < 0x80 }

  predicate IsAscii(s: bytes) { forall c | c in s :: c < 0x80 }

  lemma PrintableSplits(s: bytes)
    requires s != []
    ensures IsPrintable(s) <==> 0x20 <= s[0] < 0x80 && IsPrintable(s[1..])
    ensures IsAscii(s) <==> s[0] < 0x80 && IsAscii(s[1..])
  {
    assert s == [s[0]] + s[1..];
    assert s[0] in s;
    assert forall c | c in s[1..] :: c in s;
    if 0x20 <= s[0] < 0x80 && IsPrintable(s[1..]) {
      forall c | c in s
        ensures 0x20 <= c < 0x80
      {
        if c != s[0] { assert c in s[1..]; }
      }
    }
  }

  lemma ControlDigits(c: byte)
    requires c <= 0x1F
    ensures var d := [48, 48, HexDigit(c as int / 16), HexDigit(c as int % 16)]; IsHex4(d) && Hex4(d) == c as int
  {
    var n: int := c as int;
    assert n == n / 16 * 16 + n % 16;
  }

  lemma EscapedUnit(c: byte, t: bytes)
    ensures var s := EscapedByte(c) + t;
            && (c >= 0x80 ==> UnitLength(s) == 0)
            && (c < 0x80 ==> UnitLength(s) == |EscapedByte(c)| && s[|EscapedByte(c)|..] == t)
            && (c <= 0x1F <==> UnitLength(s) == 6)
            && (0x20 <= c < 0x80 && UnitLength(s) == 1 ==> s[0] == c)
            && (0x20 <= c < 0x80 && UnitLength(s) == 2 ==> EscapeValue(s[1]) == Some(c))
            && (c <= 0x1F ==> IsHex4(s[2..6]) && Hex4(s[2..6]) == c as int)
  {
    var e := EscapedByte(c);
    var s := e + t;
    assert s[|e|..] == t;
    assert s[0] == e[0] && (|e| > 1 ==> s[1] == e[1]);
    if |e| == 6 {
      assert s[2] == e[2] && s[3] == e[3] && s[4] == e[4] && s[5] == e[5];
      ControlDigits(c);
      assert s[2..6] == [48, 48, HexDigit(c as int / 16), HexDigit(c as int % 16)];
    }
  }

  lemma UnfoldBody(b: bytes)
    requires b != []
    ensures var u := UnitLength(b);
            && (IsBody(b) <==> u > 0 && IsBody(b[u..]))
            && (HasUnicode(b) <==> u == 6 || (u > 0 && HasUnicode(b[u..])))
            && (u == 1 ==> Denotes(b) == Prepend([b[0]], Denotes(b[1..])))
            && (u == 2 ==> Denotes(b) == Prepend([EscapeValue(b[1]).value], Denotes(b[2..])))
            && (u == 6 ==> Hex4(b[2..6]) < 0x80 ==> Denotes(b) == Prepend([Hex4(b[2..6]) as byte], Denotes(b[6..])))
  {
    hide UnitLength;
    var u := UnitLength(b);
    if u > 0 { assert BodyLength(b) == u + BodyLength(b[u..]); }
    UnitSimple(b);
  }

  lemma UnitSimple(b: bytes)
    ensures UnitLength(b) == 2 ==> IsSimpleEscape(b[1])
  {
  }

  /** A string is written as an acceptable text exactly when it is ASCII, and then without `\uXXXX` escapes
      exactly when it is printable; an ASCII string is what its text stands for. */
  lemma {:induction false} EscapedIsSimple(s: bytes)
    ensures IsBody(Escaped(s)) <==> IsAscii(s)
    ensures IsAscii(s) ==> (HasUnicode(Escaped(s)) <==> !IsPrintable(s))
    ensures IsPrintable(s) ==> IsAscii(s)
    ensures IsAscii(s) ==> Denotes(Escaped(s)) == Some(s)
    decreases |s|
  {
    hide UnitLength, EscapedByte, IsBody, HasUnicode, Denotes, IsPrintable, IsAscii, Hex4, IsHex4;
    if s == [] {
      NothingIsSimple();
    } else {
      var c, rest := s[0], Escaped(s[1..]);
      EscapedUnit(c, rest);
      UnfoldBody(Escaped(s));
      EscapedIsSimple(s[1..]);
      PrintableSplits(s);
      EscapedLengths(c);
      assert [c] + s[1..] == s;
    }
  }

  lemma NothingIsSimple()
    ensures IsBody([]) && !HasUnicode([]) && Denotes([]) == Some([]) && IsPrintable([]) && IsAscii([])
  {
  }

  lemma EscapedLengths(c: byte)
    ensures 0x20 <= c < 0x80 ==> |EscapedByte(c)| == 1 || |EscapedByte(c)| == 2
    ensures c < 0x80 ==> |EscapedByte(c)| > 0
  {
  }

  // ---- Objects that survive ----

  predicate StringsAre(p: bytes -> bool, o: Obj)
    decreases o, 0
  {
    match o
    case Buf(s) => p(s)
    case Collection(isMap, es) => EntryStringsAre(p, isMap, es)
    case _ => true
  }

  predicate EntryStringsAre(p: bytes -> bool, isMap: bool, es: seq<KV>)
    decreases es, 1
  {
    es != [] ==> (isMap ==> p(es[0].key)) && StringsAre(p, es[0].val) && EntryStringsAre(p, isMap, es[1..])
  }

  lemma NumberOfOk(x: int)
    ensures NumberOk(NumberOf(x)) && Signed(NumberOf(x).neg, NumberOf(x).whole) == x
  {
    DigitsAreDigits(if x < 0 then -x else x);
  }

  /** The tree of an object is well formed exactly when its strings are ASCII. */
  lemma {:induction false} NodeOfOk(o: Obj)
    requires NoFloats(o)
    ensures NodeOk(NodeOf(o)) <==> StringsAre(IsAscii, o)
    decreases o, 0
  {
    hide NoFloatEntries, EntriesOf, EntriesOk, EntryStringsAre, IsBody, Escaped, NumberOk, NumberOf, IsAscii;
    match o
    case Null =>
    case Bool(_) =>
    case I64(i) => NumberOfOk(i);
    case Buf(s) => EscapedIsSimple(s);
    case Collection(isMap, es) =>
      EntriesOfOk(isMap, es);
      NoWs();
      if es != [] { FirstOf(isMap, es); }
  }

  lemma NoWs()
    ensures All(IsWs, [])
  {
  }

  lemma FirstOf(isMap: bool, es: seq<KV>)
    requires NoFloatEntries(es) && es != []
    ensures var e := EntriesOf(isMap, es)[0];
            e == Entry([], if isMap then Escaped(es[0].key) else [], [], Bare(NodeOf(es[0].val)))
    ensures EntriesOf(isMap, es)[1..] == EntriesOf(isMap, es[1..])
  {
  }

  lemma {:induction false} EntriesOfOk(isMap: bool, es: seq<KV>)
    requires NoFloatEntries(es)
    ensures EntriesOk(isMap, EntriesOf(isMap, es)) <==> EntryStringsAre(IsAscii, isMap, es)
    decreases es, 1
  {
    hide NoFloats, NodeOf, NodeOk, StringsAre, IsBody, Escaped, IsAscii;
    if es != [] {
      FirstOf(isMap, es);
      NodeOfOk(es[0].val);
      EntriesOfOk(isMap, es[1..]);
      EscapedIsSimple(es[0].key);
      NoWs();
      assert EntryOk(isMap, EntriesOf(isMap, es)[0]) <==> (isMap ==> IsAscii(es[0].key)) && StringsAre(IsAscii, es[0].val);
    }
  }

  lemma {:induction false} NodeOfPlain(o: Obj)
    requires NoFloats(o) && StringsAre(IsAscii, o)
    ensures PlainNode(NodeOf(o)) <==> StringsAre(IsPrintable, o)
    decreases o, 0
  {
    hide NoFloatEntries, EntriesOf, PlainEntries, EntryStringsAre, HasUnicode, Escaped, IsPrintable, IsAscii;
    match o
    case Buf(s) => EscapedIsSimple(s);
    case Collection(isMap, es) => EntriesOfPlain(isMap, es);
    case _ =>
  }

  lemma {:induction false} EntriesOfPlain(isMap: bool, es: seq<KV>)
    requires NoFloatEntries(es) && EntryStringsAre(IsAscii, isMap, es)
    ensures PlainEntries(isMap, EntriesOf(isMap, es)) <==> EntryStringsAre(IsPrintable, isMap, es)
    decreases es, 1
  {
    hide NoFloats, NodeOf, PlainNode, StringsAre, HasUnicode, Escaped, IsPrintable, IsAscii;
    if es != [] {
      FirstOf(isMap, es);
      NodeOfPlain(es[0].val);
      EntriesOfPlain(isMap, es[1..]);
      EscapedIsSimple(es[0].key);
    }
  }

  /** The tree of an object with ASCII strings stands for that object, which takes exactly the memory it needs. */
  lemma {:induction false} NodeRoundTrip(o: Obj, free: nat, strtod: Strtod)
    requires NoFloats(o) && WellFormed(o) && StringsAre(IsAscii, o) && Need(o) <= free
    ensures NodeResult(NodeOf(o), free, strtod) == Decoded(o, free - Need(o))
    decreases o, 0
  {
    hide NoFloatEntries, EntriesOf, EntryStringsAre, EntriesResult, Escaped, IsPrintable, IsAscii, NumberOf, Denotes, Signed,
         NeedAll, Cost, WellFormedEntries;
    match o
    case Null =>
    case Bool(_) =>
    case I64(i) => NumberOfOk(i); Whole(i);
    case Buf(s) => EscapedIsSimple(s);
    case Collection(isMap, es) => EntriesRoundTrip(isMap, es, free - Cost(isMap, |es|), strtod);
  }

  lemma Whole(i: int64)
    ensures NumberOf(i).frac.None? && NumberOf(i).exp.None? && InRange(i)
  {
  }

  lemma {:induction false} EntriesRoundTrip(isMap: bool, es: seq<KV>, free: nat, strtod: Strtod)
    requires NoFloatEntries(es) && WellFormedEntries(isMap, es) && EntryStringsAre(IsAscii, isMap, es)
    requires NeedAll(es) <= free
    ensures EntriesResult(isMap, EntriesOf(isMap, es), free, strtod) == Decoded(es, free - NeedAll(es))
    decreases es, 1
  {
    hide NoFloats, NodeOf, NodeResult, StringsAre, Denotes, Escaped, IsPrintable, IsAscii, Need;
    if es != [] {
      var e := es[0];
      FirstOf(isMap, es);
      assert WellFormed(e.val) && (!isMap ==> e.key == []);
      NodeRoundTrip(e.val, free, strtod);
      EscapedIsSimple(e.key);
      EntriesRoundTrip(isMap, es[1..], free - Need(e.val), strtod);
      assert [e] + es[1..] == es;
    }
  }

  // ---- Accepted texts are ASCII ----

  lemma AsciiParts(a: bytes, b: bytes)
    ensures IsAscii(a + b) <==> IsAscii(a) && IsAscii(b)
  {
    assert forall c | c in a :: c in a + b;
    assert forall c | c in b :: c in a + b;
  }

  lemma ClassIsAscii(p: byte -> bool, s: bytes)
    requires All(p, s) && forall c: byte :: p(c) ==> c < 0x80
    ensures IsAscii(s)
  {
  }

  lemma {:induction false} BodyIsAscii(s: bytes)
    requires IsBody(s)
    ensures IsAscii(s)
    decreases |s|
  {
    hide IsAscii;
    if s == [] {
      NothingIsSimple();
    } else {
      var u := UnitLength(s);
      UnitIsAscii(s);
      BodyIsAscii(s[u..]);
      AsciiParts(s[..u], s[u..]);
      assert s == s[..u] + s[u..];
    }
  }

  lemma UnitIsAscii(s: bytes)
    requires UnitLength(s) > 0
    ensures IsAscii(s[..UnitLength(s)])
  {
    var u := UnitLength(s);
    forall c | c in s[..u]
      ensures c < 0x80
    {
      var i :| 0 <= i < u && s[i] == c;
      assert i == 0 || i == 1 || i == 2 || i == 3 || i == 4 || i == 5;
    }
  }

  lemma NumberIsAscii(n: Number)
    requires NumberOk(n)
    ensures IsAscii(NumberText(n))
  {
    var sign: bytes := if n.neg then [MINUS] else [];
    ClassIsAscii(IsDigit, n.whole);
    if n.frac.Some? { ClassIsAscii(IsDigit, n.frac.value); AsciiParts([DOT], n.frac.value); }
    if n.exp.Some? {
      var x := n.exp.value;
      ClassIsAscii(IsDigit, x.digits);
      AsciiParts([x.e], x.sign);
      AsciiParts([x.e] + x.sign, x.digits);
    }
    AsciiParts(sign, n.whole);
    AsciiParts(sign + n.whole, FracText(n.frac));
    AsciiParts(sign + n.whole + FracText(n.frac), ExpText(n.exp));
  }

  lemma StrIsAscii(body: bytes)
    ensures IsAscii(StrText(body)) <==> IsAscii(body)
  {
    hide IsAscii;
    AsciiParts([QUOTE], body);
    AsciiParts([QUOTE] + body, [QUOTE]);
    OneAscii(QUOTE);
  }

  lemma OneAscii(c: byte)
    ensures IsAscii([c]) <==> c < 0x80
  {
    assert c in [c];
  }

  /** No accepted text has a byte outside ASCII. */
  lemma {:induction false} TreeIsAscii(t: Tree)
    requires TreeOk(t)
    ensures IsAscii(TreeText(t))
    decreases t
  {
    hide NodeOk, NodeText, IsAscii, All;
    ClassIsAscii(IsWs, t.pre);
    ClassIsAscii(IsWs, t.post);
    NodeIsAscii(t.node);
    AsciiParts(NodeText(t.node), t.post);
    AsciiParts(t.pre, NodeText(t.node) + t.post);
  }

  lemma {:induction false} NodeIsAscii(n: Node)
    requires NodeOk(n)
    ensures IsAscii(NodeText(n))
    decreases n
  {
    hide IsAscii, EntriesOk, EntriesText, IsBody, NumberOk, NumberText, StrText, All;
    match n
    case StrNode(body) => BodyIsAscii(body); StrIsAscii(body);
    case NumNode(num) => NumberIsAscii(num);
    case WordNode(w) => WordIsAscii(w);
    case CollNode(isMap, inner, es) =>
      EntriesAreAscii(isMap, es);
      ClassIsAscii(IsWs, inner);
      var text := EntriesText(isMap, es);
      OneAscii(Open(isMap));
      OneAscii(Close(isMap));
      AsciiParts(text, [Close(isMap)]);
      AsciiParts(inner, text + [Close(isMap)]);
      AsciiParts([Open(isMap)], inner + (text + [Close(isMap)]));
  }

  lemma WordIsAscii(w: Word)
    ensures IsAscii(WordText(w))
  {
  }

  lemma KeyIsAscii(e: Entry)
    requires EntryOk(true, e)
    ensures IsAscii(KeyText(e))
  {
    hide IsAscii, IsBody, StrText, All, TreeOk;
    ClassIsAscii(IsWs, e.lead);
    ClassIsAscii(IsWs, e.keyWs);
    BodyIsAscii(e.key);
    StrIsAscii(e.key);
    OneAscii(COLON);
    AsciiParts(e.keyWs, [COLON]);
    AsciiParts(StrText(e.key), e.keyWs + [COLON]);
    AsciiParts(e.lead, StrText(e.key) + (e.keyWs + [COLON]));
  }

  lemma {:induction false} EntriesAreAscii(isMap: bool, es: seq<Entry>)
    requires EntriesOk(isMap, es)
    ensures IsAscii(EntriesText(isMap, es))
    decreases es
  {
    hide IsAscii, TreeOk, TreeText, KeyText;
    if es == [] {
      NothingIsSimple();
    } else {
      assert EntryOk(isMap, es[0]);
      TreeIsAscii(es[0].val);
      if isMap {
        KeyIsAscii(es[0]);
        AsciiParts(KeyText(es[0]), TreeText(es[0].val));
      }
      var rest := EntriesText(isMap, es[1..]);
      EntriesAreAscii(isMap, es[1..]);
      OneAscii(COMMA);
      AsciiParts([COMMA], rest);
      AsciiParts(EntryText(isMap, es[0]), [COMMA] + rest);
    }
  }

  lemma {:induction false} EscapedAscii(s: bytes)
    requires IsAscii(Escaped(s))
    ensures IsAscii(s)
    decreases |s|
  {
    hide IsAscii;
    if s == [] {
      NothingIsSimple();
    } else {
      AsciiParts(EscapedByte(s[0]), Escaped(s[1..]));
      EscapedAscii(s[1..]);
      if s[0] >= 0x80 { OneAscii(s[0]); }
      PrintableSplits(s);
    }
  }

  lemma {:induction false} EncodedAscii(o: Obj, printf: Printf)
    requires IsAscii(Encoded(o, printf))
    ensures StringsAre(IsAscii, o)
    decreases o, 0
  {
    hide IsAscii, EncodedEntries, EntryStringsAre, StrText, Escaped, Decimal;
    match o
    case Buf(s) => StrIsAscii(Escaped(s)); EscapedAscii(s);
    case Collection(isMap, es) =>
      var text := EncodedEntries(isMap, es, printf);
      AsciiParts([Open(isMap)], text + [Close(isMap)]);
      AsciiParts(text, [Close(isMap)]);
      EncodedEntriesAscii(isMap, es, printf);
    case _ =>
  }

  lemma {:induction false} EncodedEntriesAscii(isMap: bool, es: seq<KV>, printf: Printf)
    requires IsAscii(EncodedEntries(isMap, es, printf))
    ensures EntryStringsAre(IsAscii, isMap, es)
    decreases es, 2
  {
    hide IsAscii, Encoded, StringsAre, StrText, Escaped;
    if es != [] {
      var rest := EncodedEntries(isMap, es[1..], printf);
      if |es| > 1 {
        AsciiParts(EncodedEntry(isMap, es[0], printf), [COMMA] + rest);
        AsciiParts([COMMA], rest);
      } else {
        NothingIsSimple();
      }
      EncodedEntriesAscii(isMap, es[1..], printf);
      var e := es[0];
      var key := if isMap then StrText(Escaped(e.key)) + [COLON] else [];
      AsciiParts(key, Encoded(e.val, printf));
      EncodedAscii(e.val, printf);
      if isMap {
        AsciiParts(StrText(Escaped(e.key)), [COLON]);
        StrIsAscii(Escaped(e.key));
        EscapedAscii(e.key);
      }
    }
  }

  // ---- The round trip ----

  ghost predicate ReadsAs(b: bytes, t: Tree) { TreeOk(t) && TreeText(t) == b && PlainNode(t.node) }

  /** The text of an object without floating point numbers is accepted and free of `\uXXXX` escapes exactly when
      every string in the object is printable; it is then decoded to that object. */
  lemma RoundTrip(o: Obj, printf: Printf, free: nat, strtod: Strtod)
    requires NoFloats(o) && WellFormed(o)
    ensures (exists t :: ReadsAs(Encoded(o, printf), t)) <==> StringsAre(IsPrintable, o)
    ensures StringsAre(IsPrintable, o) ==> ReadsAs(Encoded(o, printf), Bare(NodeOf(o)))
    ensures StringsAre(IsPrintable, o) && Need(o) <= free ==>
              NodeResult(NodeOf(o), free, strtod) == Decoded(o, free - Need(o))
  {
    hide Encoded, NodeOf, NodeOk, NodeText, NoFloats, WellFormed, StringsAre, PlainNode, NodeResult, Need, IsAscii, IsPrintable;
    var b, t0 := Encoded(o, printf), Bare(NodeOf(o));
    EncodedIsText(o, printf);
    assert [] + (b + []) == b;
    NoWs();
    NodeOfOk(o);
    if StringsAre(IsPrintable, o) {
      PrintableIsAscii(o);
      NodeOfPlain(o);
      assert ReadsAs(b, t0);
      if Need(o) <= free { NodeRoundTrip(o, free, strtod); }
    }
    forall t | ReadsAs(b, t)
      ensures StringsAre(IsPrintable, o)
    {
      TreeIsAscii(t);
      EncodedAscii(o, printf);
      AcceptsExactlyTrees(b, t);
      AcceptsExactlyTrees(b, t0);
      NodeOfPlain(o);
    }
  }

  lemma {:induction false} PrintableIsAscii(o: Obj)
    requires StringsAre(IsPrintable, o)
    ensures StringsAre(IsAscii, o)
    decreases o, 0
  {
    if o.Collection? { PrintableEntriesAreAscii(o.isMap, o.entries); }
  }

  lemma {:induction false} PrintableEntriesAreAscii(isMap: bool, es: seq<KV>)
    requires EntryStringsAre(IsPrintable, isMap, es)
    ensures EntryStringsAre(IsAscii, isMap, es)
    decreases es, 1
  {
    if es != [] {
      PrintableIsAscii(es[0].val);
      PrintableEntriesAreAscii(isMap, es[1..]);
    }
  }
}
