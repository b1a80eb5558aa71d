/** The second pass of the JSON decoder (`ggl-json/src/json_decode.c`): the grammar is run on each value and the
    matched content is decoded where it stands, in the buffer that holds the rest of the text. A text is decoded to
    the value of its tree exactly when it has no `\uXXXX` escape. */
module JsonDecode {
  import opened Buffer
  import opened JsonSyntax
  import opened JsonTree
  import opened JsonGrammar
  import opened JsonUnescape
  import opened Int64Text
  import opened Objects

  /** `LeavesBuffer` stands for a write behind the end of the buffer, after which anything may happen. */
  datatype Error = ParseError | NoMemory | RangeError | LeavesBuffer

  /** A decoded value with the bytes of memory left over, or an error. */
  datatype Result<+T> = Decoded(value: T, free: nat) | Failed(error: Error)

  /** Conversion of a floating point text to the bits of a double; nothing when out of range. */
  type Strtod = bytes -> Option<uint64>

  // ---- The value of a tree ----

  function NumberResult(n: Number, free: nat, strtod: Strtod): Result<Obj> {
    if n.frac.None? && n.exp.None? then
      var x := Signed(n.neg, n.whole);
      if InRange(x) then Decoded(I64(x), free) else Failed(RangeError)
    else
      match strtod(NumberText(n)) case None => Failed(RangeError) case Some(bits) => Decoded(F64(bits), free)
  }

  function StrResult(body: bytes): Option<bytes> { Denotes(body) }

  function NodeResult(n: Node, free: nat, strtod: Strtod): Result<Obj>
    decreases n
  {
    match n
    case StrNode(body) =>
      (match StrResult(body) case None => Failed(ParseError) case Some(s) => Decoded(Buf(s), free))
    case NumNode(num) => NumberResult(num, free, strtod)
    case WordNode(w) =>
      (match w
       case TrueWord => Decoded(Bool(true), free)
       case FalseWord => Decoded(Bool(false), free)
       case NullWord => Decoded(Null, free))
    case CollNode(isMap, _, es) =>
      if Cost(isMap, |es|) > free then Failed(NoMemory)
      else
        match EntriesResult(isMap, es, free - Cost(isMap, |es|), strtod)
        case Failed(e) => Failed(e)
        case Decoded(kvs, left) => Decoded(Collection(isMap, kvs), left)
  }

  function EntryResult(isMap: bool, e: Entry, free: nat, strtod: Strtod): Result<KV>
    decreases e
  {
    var key := if isMap then StrResult(e.key) else Some([]);
    if key.None? then Failed(ParseError)
    else
      match NodeResult(e.val.node, free, strtod)
      case Failed(e) => Failed(e)
      case Decoded(v, left) => Decoded(KV(key.value, v), left)
  }

  function EntriesResult(isMap: bool, es: seq<Entry>, free: nat, strtod: Strtod): Result<seq<KV>>
    decreases es
  {
    if es == [] then Decoded([], free)
    else
      match EntryResult(isMap, es[0], free, strtod)
      case Failed(e) => Failed(e)
      case Decoded(kv, left) =>
        match EntriesResult(isMap, es[1..], left, strtod)
        case Failed(e) => Failed(e)
        case Decoded(kvs, left) => Decoded([kv] + kvs, left)
  }

  /** No string of the tree has a `\uXXXX` escape. */
  predicate PlainNode(n: Node)
    decreases n
  {
    match n
    case StrNode(body) => !HasUnicode(body)
    case CollNode(isMap, _, es) => PlainEntries(isMap, es)
    case _ => true
  }

  predicate PlainEntry(isMap: bool, e: Entry)
    decreases e
  {
    (isMap ==> !HasUnicode(e.key)) && PlainNode(e.val.node)
  }

  predicate PlainEntries(isMap: bool, es: seq<Entry>)
    decreases es
  {
    es != [] ==> PlainEntry(isMap, es[0]) && PlainEntries(isMap, es[1..])
  }

  /** A value that is not what the text means, however much memory there is. */
  ghost predicate Misread(n: Node, o: Obj, strtod: Strtod) {
    forall f: nat | NodeResult(n, f, strtod).Decoded? :: NodeResult(n, f, strtod).value != o
  }

  ghost predicate MisreadEntry(isMap: bool, e: Entry, kv: KV, strtod: Strtod) {
    forall f: nat | EntryResult(isMap, e, f, strtod).Decoded? :: EntryResult(isMap, e, f, strtod).value != kv
  }

  ghost predicate MisreadEntries(isMap: bool, es: seq<Entry>, kvs: seq<KV>, strtod: Strtod) {
    forall f: nat | EntriesResult(isMap, es, f, strtod).Decoded? :: EntriesResult(isMap, es, f, strtod).value != kvs
  }

  lemma {:induction false} EntryAt(isMap: bool, es: seq<Entry>, f: nat, strtod: Strtod, j: nat) returns (g: nat)
    requires j < |es| && EntriesResult(isMap, es, f, strtod).Decoded?
    ensures |EntriesResult(isMap, es, f, strtod).value| == |es|
    ensures EntryResult(isMap, es[j], g, strtod).Decoded?
    ensures EntryResult(isMap, es[j], g, strtod).value == EntriesResult(isMap, es, f, strtod).value[j]
    decreases |es|
  {
    hide EntryResult;
    g := f;
    var left := EntryResult(isMap, es[0], f, strtod).free;
    if |es| == 1 {
      assert es[1..] == [];
    } else {
      var k := if j == 0 then 0 else j - 1;
      var h := EntryAt(isMap, es[1..], left, strtod, k);
      if j > 0 { g := h; }
    }
  }

  /** One entry that is misread spoils the collection. */
  lemma MisreadAt(isMap: bool, es: seq<Entry>, kvs: seq<KV>, strtod: Strtod, j: nat)
    requires j < |es| == |kvs| && MisreadEntry(isMap, es[j], kvs[j], strtod)
    ensures MisreadEntries(isMap, es, kvs, strtod)
  {
    hide EntriesResult, EntryResult;
    forall f: nat | EntriesResult(isMap, es, f, strtod).Decoded?
      ensures EntriesResult(isMap, es, f, strtod).value != kvs
    {
      var g := EntryAt(isMap, es, f, strtod, j);
    }
  }

  lemma MisreadKey(e: Entry, key: bytes, o: Obj, strtod: Strtod)
    requires Denotes(e.key) != Some(key)
    ensures MisreadEntry(true, e, KV(key, o), strtod)
  {
    hide NodeResult, Denotes;
  }

  lemma MisreadValue(isMap: bool, e: Entry, key: bytes, o: Obj, strtod: Strtod)
    requires Misread(e.val.node, o, strtod)
    ensures MisreadEntry(isMap, e, KV(key, o), strtod)
  {
    hide NodeResult, Denotes;
    forall f: nat | EntryResult(isMap, e, f, strtod).Decoded?
      ensures EntryResult(isMap, e, f, strtod).value != KV(key, o)
    {
      assert NodeResult(e.val.node, f, strtod).Decoded?;
    }
  }

  lemma MisreadCollection(isMap: bool, inner: bytes, es: seq<Entry>, kvs: seq<KV>, strtod: Strtod)
    requires MisreadEntries(isMap, es, kvs, strtod)
    ensures Misread(CollNode(isMap, inner, es), Collection(isMap, kvs), strtod)
  {
    hide EntriesResult, Cost;
    var n := CollNode(isMap, inner, es);
    forall f: nat | NodeResult(n, f, strtod).Decoded? ensures NodeResult(n, f, strtod).value != Collection(isMap, kvs) {
      var left := f - Cost(isMap, |es|);
      assert EntriesResult(isMap, es, left, strtod).Decoded?;
    }
  }

  lemma MisreadString(body: bytes, s: bytes, strtod: Strtod)
    requires Denotes(body) != Some(s)
    ensures Misread(StrNode(body), Buf(s), strtod)
  {
    hide Denotes;
  }

  // ---- Numbers ----

  lemma NumberParts(n: Number)
    requires NumberOk(n)
    ensures var s := NumberText(n);
            && ReadInt(Unsigned(s)) == Some((n.whole, FracText(n.frac) + ExpText(n.exp)))
            && ReadFrac(FracText(n.frac) + ExpText(n.exp)) == (n.frac, ExpText(n.exp))
            && ReadExp(ExpText(n.exp)) == (n.exp, [])
  {
    hide ReadInt, ReadFrac, ReadExp, FracText, ExpText, ExponentOk, All;
    ReadNumberOf(n, []);
    var tail := ExpText(n.exp) + [];
    assert tail == ExpText(n.exp);
    Nest(if n.neg then [MINUS] else [], n.whole, FracText(n.frac), ExpText(n.exp), []);
    TailEnds(n, []);
    assert FracText(n.frac) + tail == FracText(n.frac) + ExpText(n.exp);
    var s := NumberText(n);
    assert s + [] == s;
    SignSplits(n.neg, n.whole, FracText(n.frac) + tail);
    ReadIntOf(n.whole, FracText(n.frac) + tail);
    ReadFracOf(n.frac, tail);
    ReadExpOf(n.exp, []);
  }

  lemma WholeIsDecimal(n: Number)
    requires NumberOk(n) && n.frac.None? && n.exp.None?
    ensures var s := NumberText(n); IsDecimal(s) && IsNegative(s) == n.neg && Magnitude(s) == n.whole
  {
    assert n.whole[0] in n.whole;
    SpanOf(IsDigit, n.whole, []);
    assert n.whole + [] == n.whole;
    var s := NumberText(n);
    assert s == (if n.neg then [MINUS] else []) + n.whole;
  }

  /** Decodes the text of the number `n`. */
  method DecodeNumber(content: bytes, ghost n: Number, free: nat, strtod: Strtod) returns (r: Result<Obj>)
    requires NumberOk(n) && content == NumberText(n)
    ensures r == NumberResult(n, free, strtod)
  {
    hide Parse, NumberOk, NumberText, ReadInt, ReadFrac, ReadExp, FracText, ExpText, Signed, InRange, Int64Of;
    NumberParts(n);
    OnIntPart(content, None, 0);
    var whole := Parse(INT_PART, content, None, 0);
    OnFracPart(whole.buf, None, 0);
    var frac := Parse(FRAC_PART, whole.buf, None, 0);
    OnExponent(frac.buf, None, 0);
    var exp := Parse(EXPONENT, frac.buf, None, 0);
    if !frac.ok && !exp.ok {
      WholeIsDecimal(n);
      var x := StrToInt64(content);
      Int64OfDecimal(content);
      if !x.Ok? { return Failed(RangeError); }
      return Decoded(I64(x.value), free);
    }
    var bits := strtod(content);
    if bits.None? { return Failed(RangeError); }
    return Decoded(F64(bits.value), free);
  }

  lemma Int64OfDecimal(s: bytes)
    requires IsDecimal(s)
    ensures var x := Signed(IsNegative(s), Magnitude(s));
            if InRange(x) then Int64Of(s) == ParseResult.Ok(x) else Int64Of(s) == OutOfRange
  {
    assert Leading(s) == Magnitude(s);
  }

  // ---- Values ----

  /** What taking a value off the front of a part of the buffer yields: the value and where reading goes on. */
  datatype Taken = Took(obj: Obj, at: nat, free: nat) | Refused(error: Error)

  function AsTaken(r: Result<Obj>, at: nat): Taken {
    match r case Failed(e) => Taken.Refused(e) case Decoded(o, free) => Took(o, at, free)
  }

  const BLANK: Output := Output(StrType, [], 0, 0)

  /** What stands between the quotes or brackets of a value. */
  ghost function ContentOf(n: Node): bytes {
    match n
    case StrNode(body) => body
    case CollNode(isMap, _, es) => EntriesText(isMap, es)
    case _ => []
  }

  /** `content` stands in `b` with `behind` bytes behind it and something before it. */
  ghost predicate StandsIn(b: bytes, content: bytes, behind: nat) {
    |content| + behind < |b| && b[|b| - behind - |content|..|b| - behind] == content
  }

  lemma Middle(a: bytes, x: bytes, b: bytes)
    requires a != []
    ensures StandsIn(a + x + b, x, |b|)
  {
  }

  lemma StringStands(pre: bytes, body: bytes, post: bytes, rest: bytes)
    ensures StandsIn(pre + (([QUOTE] + body + [QUOTE]) + post) + rest, body, |post| + |rest| + 1)
  {
    var front, back := pre + [QUOTE], [QUOTE] + post + rest;
    Middle(front, body, back);
    assert front + body + back == pre + (([QUOTE] + body + [QUOTE]) + post) + rest;
  }

  lemma EntriesStand(pre: bytes, open: byte, inner: bytes, content: bytes, close: byte, post: bytes, rest: bytes)
    ensures StandsIn(pre + (([open] + (inner + (content + [close]))) + post) + rest, content, |post| + |rest| + 1)
  {
    var front, back := pre + [open] + inner, [close] + post + rest;
    Middle(front, content, back);
    assert front + content + back == pre + (([open] + (inner + (content + [close]))) + post) + rest;
  }

  lemma ContentAt(t: Tree, rest: bytes)
    requires t.node.StrNode? || t.node.CollNode?
    ensures StandsIn(TreeText(t) + rest, ContentOf(t.node), |t.post| + |rest| + 1)
  {
    hide EntriesText, StandsIn;
    match t.node
    case StrNode(body) => StringStands(t.pre, body, t.post, rest);
    case CollNode(isMap, inner, es) =>
      EntriesStand(t.pre, Open(isMap), inner, EntriesText(isMap, es), Close(isMap), t.post, rest);
    case _ =>
  }

  /** What the first pass reports about a value. */
  lemma FirstPass(b: bytes)
    ensures var r := Parse(VALUE, b, Some(BLANK), |b|);
            match ReadTree(b)
            case None => Fails(r, b)
            case Some((t, rest)) =>
              && r == Done(true, rest, Described(Some(BLANK), t.node, |t.post| + |rest|)) && NodeOk(t.node)
              && (t.node.StrNode? || t.node.CollNode? ==> StandsIn(b, ContentOf(t.node), |t.post| + |rest| + 1))
              && (t.node.CollNode? ==> EntriesOk(t.node.isMap, t.node.entries))
  {
    hide Parse, ReadTree, NodeOk, Described, EntriesText, EntriesOk, TreeText, StandsIn, ContentOf;
    OnTree(b, Some(BLANK));
    if ReadTree(b).Some? {
      ReadTreeSound(b);
      var (t, rest) := ReadTree(b).value;
      if t.node.CollNode? { EntriesAreOk(t.node); }
      if t.node.StrNode? || t.node.CollNode? { ContentAt(t, rest); }
    }
  }

  lemma EntriesAreOk(n: Node)
    requires n.CollNode? && NodeOk(n)
    ensures EntriesOk(n.isMap, n.entries)
  {
  }

  // ---- What decoding in place yields ----

  /** The result of decoding a part of the text, and how many bytes behind that part it has spoilt. */
  datatype Ran<+T> = Ran(result: Result<T>, spoilt: nat)

  function Beyond(k: nat, n: nat): nat { if k > n then k - n else 0 }

  /** A string with `room` bytes of memory behind it. */
  ghost function StrRun(body: bytes, free: nat, room: nat): Ran<bytes> {
    if !HasUnicode(body) then
      Ran(match Denotes(body) { case None => Failed(ParseError) case Some(s) => Decoded(s, free) }, 0)
    else if Spill(body) == 0 then Ran(Failed(ParseError), 0)
    else if Spill(body) > room then Ran(Failed(LeavesBuffer), 0)
    else Ran(Decoded(Garbled(body), free), Spill(body))
  }

  /** A value with `room` bytes of memory behind its text. */
  ghost function NodeRun(n: Node, free: nat, strtod: Strtod, room: nat): Ran<Obj>
    decreases n
  {
    match n
    case StrNode(body) =>
      var r := StrRun(body, free, room + 1);
      Ran(match r.result { case Failed(e) => Failed(e) case Decoded(s, left) => Decoded(Buf(s), left) }, Beyond(r.spoilt, 1))
    case CollNode(isMap, _, es) =>
      if Cost(isMap, |es|) > free then Ran(Failed(NoMemory), 0)
      else
        var r := EntriesRun(isMap, es, free - Cost(isMap, |es|), strtod, room + 1);
        Ran(match r.result
            case Failed(e) => Failed(e)
            case Decoded(kvs, left) => Decoded(Collection(isMap, kvs), left),
            Beyond(r.spoilt, 1))
    case _ => Ran(NodeResult(n, free, strtod), 0)
  }

  ghost function TreeRun(t: Tree, free: nat, strtod: Strtod, room: nat): Ran<Obj> {
    var r := NodeRun(t.node, free, strtod, |t.post| + room);
    Ran(r.result, Beyond(r.spoilt, |t.post|))
  }

  /** An entry; a key that spoils the colon behind it is an error. */
  ghost function EntryRun(isMap: bool, e: Entry, free: nat, strtod: Strtod, room: nat): Ran<KV>
    decreases e
  {
    var key :=
      if isMap then StrRun(e.key, free, 1 + |e.keyWs| + 1 + |TreeText(e.val)| + room) else Ran(Decoded([], free), 0);
    match key.result
    case Failed(x) => Ran(Failed(x), 0)
    case Decoded(k, left) =>
      if key.spoilt > 1 + |e.keyWs| then Ran(Failed(ParseError), 0)
      else
        var v := NodeRun(e.val.node, left, strtod, |e.val.post| + room);
        Ran(match v.result { case Failed(x) => Failed(x) case Decoded(o, l) => Decoded(KV(k, o), l) },
            Beyond(v.spoilt, |e.val.post|))
  }

  /** The entries of a collection; one that spoils the comma behind it is an error. */
  ghost function EntriesRun(isMap: bool, es: seq<Entry>, free: nat, strtod: Strtod, room: nat): Ran<seq<KV>>
    decreases es
  {
    if es == [] then Ran(Decoded([], free), 0)
    else
      var first := EntryRun(isMap, es[0], free, strtod, |EntriesTail(isMap, es)| + room);
      match first.result
      case Failed(e) => Ran(Failed(e), 0)
      case Decoded(kv, left) =>
        if |es| == 1 then Ran(Decoded([kv], left), first.spoilt)
        else if first.spoilt > 0 then Ran(Failed(ParseError), 0)
        else AppendRun([kv], EntriesRun(isMap, es[1..], left, strtod, room))
  }

  function AppendRun(kvs: seq<KV>, r: Ran<seq<KV>>): Ran<seq<KV>> {
    match r.result
    case Failed(e) => Ran(Failed(e), r.spoilt)
    case Decoded(more, left) => Ran(Decoded(kvs + more, left), r.spoilt)
  }

  /** What follows the first of some entries. */
  ghost function EntriesTail(isMap: bool, es: seq<Entry>): (t: bytes)
    requires es != []
    ensures ValueEnds(t)
  {
    if |es| == 1 then [] else [COMMA] + EntriesText(isMap, es[1..])
  }

  lemma FirstEntry(isMap: bool, es: seq<Entry>)
    requires es != [] && EntriesOk(isMap, es)
    ensures EntryOk(isMap, es[0]) && EntriesOk(isMap, es[1..])
    ensures EntriesText(isMap, es) == EntryText(isMap, es[0]) + EntriesTail(isMap, es)
  {
    hide EntryOk, EntryText;
    if |es| == 1 { assert EntryText(isMap, es[0]) + [] == EntryText(isMap, es[0]); }
  }

  // ---- The memory ----

  /** The `k` bytes from `at` on are spoilt, and those behind them are as they were. A spoilt byte is not ASCII. */
  ghost predicate SpoiltFrom(m0: bytes, m: bytes, at: nat, k: nat) {
    && |m| == |m0| && at + k <= |m0| && m[at + k..] == m0[at + k..]
    && forall i | at <= i < at + k :: m[i] >= 0x80
  }

  lemma SpoiltLater(m0: bytes, m: bytes, at: nat, k: nat, at2: nat)
    requires SpoiltFrom(m0, m, at, k) && at <= at2 <= |m0|
    ensures SpoiltFrom(m0, m, at2, Beyond(k, at2 - at))
  {
    if at + k <= at2 { SuffixKept(m0, m, at + k, at2); }
  }

  lemma SuffixKept(m0: bytes, m: bytes, a: nat, b: nat)
    requires |m| == |m0| && a <= b <= |m0| && m[a..] == m0[a..]
    ensures m[b..] == m0[b..] && forall c | a <= c <= b :: m[c..b] == m0[c..b]
  {
    assert forall i | a <= i < |m0| :: m[i] == m[a..][i - a] && m0[i] == m0[a..][i - a];
  }

  lemma PrefixKept(m0: bytes, m: bytes, a: nat, b: nat)
    requires |m| == |m0| && a <= b <= |m0| && m[..b] == m0[..b]
    ensures m[..a] == m0[..a]
  {
    assert m[..a] == m[..b][..a];
  }

  lemma NoSpill(s: bytes)
    ensures FirstUnicode(s).None? ==> Spill(s) == 0
  {
  }

  lemma NoPlainString(body: bytes)
    ensures IsBody(body) && !HasUnicode(body) ==> IsSimple(body)
  {
    if IsBody(body) && !HasUnicode(body) { DenotesSomething(body); }
  }

  /** What taking a value off the front of `m0[lo..hi]` yields and does to the memory. Nothing in front of the value
      changes, and without `\uXXXX` escapes nothing behind it does. */
  ghost predicate ValueTaken(m0: bytes, m: bytes, lo: nat, hi: nat, free: nat, strtod: Strtod, r: Taken)
    requires lo <= hi <= |m0|
  {
    && |m| == |m0| && m[..lo] == m0[..lo]
    && match ReadTree(m0[lo..hi])
       case None => r == Taken.Refused(ParseError) && m == m0
       case Some((t, rest)) => |rest| < hi - lo && TreeTaken(m0, m, hi - |rest|, free, strtod, t, r)
  }

  ghost predicate TreeTaken(m0: bytes, m: bytes, at: nat, free: nat, strtod: Strtod, t: Tree, r: Taken)
    requires at <= |m0| == |m|
  {
    var run := TreeRun(t, free, strtod, |m0| - at);
    && r == AsTaken(run.result, at) && (run.result.Decoded? ==> SpoiltFrom(m0, m, at, run.spoilt))
    && (PlainNode(t.node) ==> m[at..] == m0[at..])
  }

  // ---- The second pass ----

  /** Decodes the string that stands in `mem[lo..hi]`. */
  method DecodeStr(mem: array<byte>, lo: nat, hi: nat, free: nat) returns (r: Result<bytes>)
    requires lo <= hi < mem.Length && IsBody(mem[lo..hi])
    modifies mem
    ensures mem[..lo] == old(mem[..lo])
    ensures var run := StrRun(old(mem[lo..hi]), free, mem.Length - hi);
            r == run.result && (r.Decoded? ==> SpoiltFrom(old(mem[..]), mem[..], hi + 1, Beyond(run.spoilt, 1)))
    ensures !HasUnicode(old(mem[lo..hi])) ==> mem[hi..] == old(mem[hi..])
  {
    hide Denotes, HasUnicode, Spill, Garbled, SpoiltFrom;
    ghost var m0, body := mem[..], mem[lo..hi];
    NoPlainString(body);
    if !HasUnicode(body) { SimpleFirst(body); }
    NoSpill(body);
    SpillShort(body);
    var e := UnescapeString(mem, lo, hi);
    StringLeaves(m0, mem[..], hi, body, e);
    match e
    case Unescaped(len) => return Decoded(mem[lo..lo + len], free);
    case Malformed => return Failed(ParseError);
    case Overrun => return Failed(LeavesBuffer);
  }

  lemma SpillShort(s: bytes)
    ensures Spill(s) <= 4 && (Spill(s) > 0 ==> !IsSimple(s))
  {
    hide Denotes, HasUnicode, FirstUnicode;
    if Spill(s) > 0 { SpillIsNotSimple(s); }
  }

  lemma StringLeaves(m0: bytes, m: bytes, hi: nat, body: bytes, e: Ending)
    requires |m| == |m0| && hi < |m0| && (e == Overrun <==> hi + Spill(body) > |m0|)
    requires Spill(body) == 0 ==> m[hi..] == m0[hi..]
    requires Spill(body) > 0 && e != Overrun ==>
               && m[hi + Spill(body)..] == m0[hi + Spill(body)..]
               && (Spill(body) > 1 ==> forall i | hi <= i < hi + Spill(body) :: m[i] >= 0x80)
    ensures e != Overrun ==> SpoiltFrom(m0, m, hi + 1, Beyond(Spill(body), 1))
  {
    hide Spill;
    if Spill(body) == 0 { SuffixKept(m0, m, hi, hi + 1); }
  }

  method TakeStr(mem: array<byte>, lo: nat, hi: nat, content: bytes, behind: nat, at: nat, free: nat, strtod: Strtod,
                 ghost t: Tree, ghost rest: bytes)
    returns (r: Taken)
    requires lo <= hi <= mem.Length && ReadTree(mem[lo..hi]) == Some((t, rest)) && t.node == StrNode(content) && NodeOk(t.node)
    requires StandsIn(mem[lo..hi], content, behind) && behind == |t.post| + |rest| + 1 && at == hi - |rest|
    modifies mem
    ensures ValueTaken(old(mem[..]), mem[..], lo, hi, free, strtod, r)
  {
    hide ReadTree, HasUnicode, IsBody, StandsIn, StrRun, SpoiltFrom, TreeTaken;
    ghost var m0 := mem[..];
    assert m0[lo..hi] == mem[lo..hi];
    StandsAt(m0, lo, hi, content, behind);
    var end := hi - behind;
    var start := end - |content|;
    assert mem[start..end] == m0[start..end];
    var s := DecodeStr(mem, start, end, free);
    PrefixKept(m0, mem[..], lo, start);
    StringTaken(m0, mem[..], end, at, content, free, strtod, t, s);
    match s
    case Failed(e) => return Taken.Refused(e);
    case Decoded(x, left) => return Took(Buf(x), at, left);
  }

  lemma StringTaken(m0: bytes, m: bytes, end: nat, at: nat, body: bytes, free: nat, strtod: Strtod, t: Tree, s: Result<bytes>)
    requires |m| == |m0| && end + 1 + |t.post| == at <= |m0| && t.node == StrNode(body)
    requires var run := StrRun(body, free, |m0| - end);
             s == run.result && (s.Decoded? ==> SpoiltFrom(m0, m, end + 1, Beyond(run.spoilt, 1)))
    requires !HasUnicode(body) ==> m[end..] == m0[end..]
    ensures TreeTaken(m0, m, at, free, strtod, t,
                      match s { case Failed(e) => Taken.Refused(e) case Decoded(x, left) => Took(Buf(x), at, left) })
  {
    hide HasUnicode, StrRun, SpoiltFrom;
    var run := StrRun(body, free, |m0| - end);
    assert |m0| - end == |t.post| + (|m0| - at) + 1;
    if s.Decoded? { SpoiltLater(m0, m, end + 1, Beyond(run.spoilt, 1), at); }
    if !HasUnicode(body) { SuffixKept(m0, m, end, at); }
  }

  method TakeCollection(mem: array<byte>, lo: nat, hi: nat, isMap: bool, content: bytes, behind: nat, count: nat, at: nat,
                        free: nat, strtod: Strtod, ghost t: Tree, ghost rest: bytes)
    returns (r: Taken)
    requires lo <= hi <= mem.Length && ReadTree(mem[lo..hi]) == Some((t, rest)) && t.node.CollNode? && t.node.isMap == isMap
    requires EntriesOk(isMap, t.node.entries) && content == EntriesText(isMap, t.node.entries) && count == |t.node.entries|
    requires StandsIn(mem[lo..hi], content, behind) && behind == |t.post| + |rest| + 1 && at == hi - |rest|
    modifies mem
    ensures ValueTaken(old(mem[..]), mem[..], lo, hi, free, strtod, r)
    decreases hi - lo, 0
  {
    hide ReadTree, EntriesText, EntriesOk, EntriesRun, PlainEntries, StandsIn, Cost, SpoiltFrom, TreeTaken;
    ghost var m0, node := mem[..], t.node;
    assert m0[lo..hi] == mem[lo..hi];
    StandsAt(m0, lo, hi, content, behind);
    if Cost(isMap, count) > free {
      TooLittle(m0, at, free, strtod, t);
      return Taken.Refused(NoMemory);
    }
    var end := hi - behind;
    var start := end - |content|;
    assert mem[start..end] == m0[start..end];
    var x := DecodeEntries(mem, isMap, start, end, count, node.entries, free - Cost(isMap, count), strtod);
    PrefixKept(m0, mem[..], lo, start);
    CollectionTaken(m0, mem[..], end, at, free, strtod, t, x);
    match x
    case Failed(e) => return Taken.Refused(e);
    case Decoded(kvs, left) => return Took(Collection(isMap, kvs), at, left);
  }

  lemma TooLittle(m: bytes, at: nat, free: nat, strtod: Strtod, t: Tree)
    requires at <= |m| && t.node.CollNode? && Cost(t.node.isMap, |t.node.entries|) > free
    ensures TreeTaken(m, m, at, free, strtod, t, Taken.Refused(NoMemory))
  {
    hide Cost, EntriesRun, PlainEntries;
  }

  lemma CollectionTaken(m0: bytes, m: bytes, end: nat, at: nat, free: nat, strtod: Strtod, t: Tree, x: Result<seq<KV>>)
    requires |m| == |m0| && end + 1 + |t.post| == at <= |m0| && t.node.CollNode?
    requires Cost(t.node.isMap, |t.node.entries|) <= free
    requires var run := EntriesRun(t.node.isMap, t.node.entries, free - Cost(t.node.isMap, |t.node.entries|), strtod, |m0| - end);
             x == run.result && (x.Decoded? ==> SpoiltFrom(m0, m, end, run.spoilt))
    requires PlainEntries(t.node.isMap, t.node.entries) ==> m[end..] == m0[end..]
    ensures TreeTaken(m0, m, at, free, strtod, t,
                      match x { case Failed(e) => Taken.Refused(e)
                                case Decoded(kvs, left) => Took(Collection(t.node.isMap, kvs), at, left) })
  {
    hide EntriesRun, SpoiltFrom, Cost, PlainEntries;
    var isMap, es := t.node.isMap, t.node.entries;
    var run := EntriesRun(isMap, es, free - Cost(isMap, |es|), strtod, |m0| - end);
    assert |m0| - end == |t.post| + (|m0| - at) + 1;
    if x.Decoded? {
      SpoiltLater(m0, m, end, run.spoilt, end + 1);
      SpoiltLater(m0, m, end + 1, Beyond(run.spoilt, 1), at);
    }
    if PlainEntries(isMap, es) { SuffixKept(m0, m, end, at); }
  }

  /** Takes one value off the front of `mem[lo..hi]`. */
  method TakeVal(mem: array<byte>, lo: nat, hi: nat, free: nat, strtod: Strtod) returns (r: Taken)
    requires lo <= hi <= mem.Length
    modifies mem
    ensures ValueTaken(old(mem[..]), mem[..], lo, hi, free, strtod, r)
    decreases hi - lo, 1
  {
    hide Parse, ReadTree, NumberOk, NumberText, EntriesText, EntriesOk, IsBody, NumberResult, WordText, StandsIn,
         TreeTaken, PlainEntries, HasUnicode, EntriesResult, Denotes;
    ghost var m0 := mem[..];
    var b := mem[lo..hi];
    assert b == m0[lo..hi];
    FirstPass(b);
    var match0 := Parse(VALUE, b, Some(BLANK), |b|);
    if !match0.ok { return Taken.Refused(ParseError); }
    ghost var (t, rest) := ReadTree(b).value;
    var at, out := hi - |match0.buf|, match0.out.value;
    match out.ty
    case StrType => r := TakeStr(mem, lo, hi, out.content, out.behind, at, free, strtod, t, rest);
    case NumberType =>
      var x := DecodeNumber(out.content, t.node.n, free, strtod);
      r := AsTaken(x, at);
      NothingTaken(m0, at, free, strtod, t, r);
    case TrueType => r := Took(Bool(true), at, free); NothingTaken(m0, at, free, strtod, t, r);
    case FalseType => r := Took(Bool(false), at, free); NothingTaken(m0, at, free, strtod, t, r);
    case NullType => r := Took(Null, at, free); NothingTaken(m0, at, free, strtod, t, r);
    case _ =>
      r := TakeCollection(mem, lo, hi, out.ty.ObjectType?, out.content, out.behind, out.count, at, free, strtod, t, rest);
  }

  /** Numbers and words leave the memory alone. */
  lemma NothingTaken(m: bytes, at: nat, free: nat, strtod: Strtod, t: Tree, r: Taken)
    requires at <= |m| && !t.node.StrNode? && !t.node.CollNode? && r == AsTaken(NodeResult(t.node, free, strtod), at)
    ensures TreeTaken(m, m, at, free, strtod, t, r)
  {
    hide NumberResult;
  }

  lemma StandsAt(m: bytes, lo: nat, hi: nat, content: bytes, behind: nat)
    requires lo <= hi <= |m| && StandsIn(m[lo..hi], content, behind)
    ensures |content| + behind < hi - lo && m[hi - behind - |content|..hi - behind] == content
  {
    var b := m[lo..hi];
    SliceOf(m, lo, hi, |b| - behind - |content|, |b| - behind);
  }

  /** An entry decoded, with the position where reading goes on. */
  function WithAt(r: Result<KV>, at: nat): Result<(KV, nat)> {
    match r case Failed(e) => Failed(e) case Decoded(kv, free) => Decoded((kv, at), free)
  }

  /** Reads a key and the colon behind it. */
  method DecodeKey(mem: array<byte>, lo: nat, hi: nat, ghost e: Entry, ghost tail: bytes, free: nat, strtod: Strtod)
    returns (r: Result<(bytes, nat)>)
    requires lo <= hi <= mem.Length && EntryOk(true, e) && mem[lo..hi] == EntryText(true, e) + tail
    modifies mem
    ensures mem[..lo] == old(mem[..lo])
    ensures var rest := TreeText(e.val) + tail;
            var run := StrRun(e.key, free, 1 + |e.keyWs| + 1 + |rest| + (mem.Length - hi));
            && lo < hi - |rest| && (!HasUnicode(e.key) ==> mem[hi - |rest|..] == old(mem[hi - |rest|..]))
            && match run.result
               case Failed(x) => r == Failed(x)
               case Decoded(k, left) =>
                 if run.spoilt > 1 + |e.keyWs| then r == Failed(ParseError)
                 else r == Decoded((k, hi - |rest|), left) && mem[hi - |rest|..] == old(mem[hi - |rest|..])
    decreases hi - lo, 2
  {
    hide TreeOk, IsBody, All, HasUnicode, EntryText, NodeOk, NodeText, ReadTree, Parse, StrText, StrRun, TreeText, SpoiltFrom,
         TreeTaken;
    ghost var m0 := mem[..];
    assert m0[lo..hi] == mem[lo..hi];
    KeyIsTree(e, tail);
    var key := TakeVal(mem, lo, hi, free, strtod);
    KeyTaken(m0, mem[..], lo, hi, e, tail, free, strtod, key);
    match key
    case Refused(error) => return Failed(error);
    case Took(obj, at, left) =>
      if !obj.Buf? { return Failed(ParseError); }
      OnChar(COLON, mem[at..hi], None, 0);
      var sep := Parse(Char(COLON), mem[at..hi], None, 0);
      if !sep.ok { return Failed(ParseError); }
      return Decoded((obj.data, at + 1), left);
  }

  /** What is known about a key once it has been taken: the colon behind it is there exactly if it is not spoilt. */
  lemma KeyTaken(m0: bytes, m: bytes, lo: nat, hi: nat, e: Entry, tail: bytes, free: nat, strtod: Strtod, key: Taken)
    requires |m| == |m0| && lo <= hi <= |m0| && EntryOk(true, e) && m0[lo..hi] == EntryText(true, e) + tail
    requires ValueTaken(m0, m, lo, hi, free, strtod, key)
    ensures var rest := TreeText(e.val) + tail;
            var run := StrRun(e.key, free, 1 + |e.keyWs| + 1 + |rest| + (|m0| - hi));
            && lo < hi - |rest| && (!HasUnicode(e.key) ==> m[hi - |rest|..] == m0[hi - |rest|..])
            && match run.result
               case Failed(x) => key == Taken.Refused(x)
               case Decoded(k, left) =>
                 && key == Took(Buf(k), hi - |rest| - 1, left)
                 && if run.spoilt > 1 + |e.keyWs| then m[hi - |rest| - 1] != COLON
                    else m[hi - |rest| - 1] == COLON && m[hi - |rest|..] == m0[hi - |rest|..]
  {
    hide TreeOk, IsBody, All, HasUnicode, EntryText, NodeOk, TreeText, ReadTree, StrText, StrRun;
    KeyIsTree(e, tail);
    var v := TreeText(e.val) + tail;
    var rest := [COLON] + v;
    var at := hi - |rest|;
    var run := StrRun(e.key, free, 1 + |e.keyWs| + 1 + |v| + (|m0| - hi));
    assert |m0| - at == 1 + |v| + (|m0| - hi);
    EndsWith(m0, lo, hi, e, tail);
    assert m0[at..hi][0] == COLON;
    if !HasUnicode(e.key) { SuffixKept(m0, m, at, at + 1); }
    if run.result.Decoded? && run.spoilt <= 1 + |e.keyWs| { SuffixKept(m0, m, at, at + 1); }
  }

  lemma EndsWith(m0: bytes, lo: nat, hi: nat, e: Entry, tail: bytes)
    requires lo <= hi <= |m0| && EntryOk(true, e) && m0[lo..hi] == EntryText(true, e) + tail
    ensures var rest := [COLON] + (TreeText(e.val) + tail); |rest| < hi - lo && m0[hi - |rest|..hi] == rest
  {
    hide TreeOk, IsBody, All, TreeText, ReadTree, StrText;
    KeyIsTree(e, tail);
    var t, rest := Tree(e.lead, StrNode(e.key), e.keyWs), [COLON] + (TreeText(e.val) + tail);
    ReadTreeSound(m0[lo..hi]);
    SuffixOf(m0, lo, hi, TreeText(t), rest);
  }

  lemma SuffixOf(m: bytes, lo: nat, hi: nat, a: bytes, b: bytes)
    requires lo <= hi <= |m| && m[lo..hi] == a + b
    ensures |b| <= hi - lo && m[hi - |b|..hi] == b
  {
    var s := m[lo..hi];
    assert |s| == |a| + |b|;
    SliceOf(m, lo, hi, |a|, |s|);
    assert s[|a|..|s|] == b;
  }

  lemma KeyIsTree(e: Entry, tail: bytes)
    requires EntryOk(true, e)
    ensures ReadTree(EntryText(true, e) + tail) ==
            Some((Tree(e.lead, StrNode(e.key), e.keyWs), [COLON] + (TreeText(e.val) + tail)))
  {
    hide TreeOk, IsBody, All, ReadTree, StrText;
    var t := Tree(e.lead, StrNode(e.key), e.keyWs);
    var rest := [COLON] + (TreeText(e.val) + tail);
    var v := TreeText(e.val);
    assert EntryText(true, e) + tail == TreeText(t) + rest by {
      Shuffle(e.lead, StrText(e.key), e.keyWs, [COLON], v, tail);
    }
    KeyTreeOk(e);
    ReadTreeOf(t, rest);
  }

  lemma Shuffle(a: bytes, b: bytes, c: bytes, d: bytes, v: bytes, t: bytes)
    ensures a + (b + (c + d)) + v + t == a + (b + c) + (d + (v + t))
  {
  }

  lemma KeyTreeOk(e: Entry)
    requires EntryOk(true, e)
    ensures TreeOk(Tree(e.lead, StrNode(e.key), e.keyWs))
  {
    hide IsBody, All;
  }

  /** Decodes one entry. */
  method DecodeEntry(mem: array<byte>, isMap: bool, lo: nat, hi: nat, ghost e: Entry, ghost tail: bytes, free: nat,
                     strtod: Strtod)
    returns (r: Result<(KV, nat)>)
    requires lo <= hi <= mem.Length && EntryOk(isMap, e) && ValueEnds(tail) && mem[lo..hi] == EntryText(isMap, e) + tail
    modifies mem
    ensures mem[..lo] == old(mem[..lo])
    ensures EntryTaken(old(mem[..]), mem[..], isMap, lo, hi, e, tail, free, strtod, r)
    decreases hi - lo, 4
  {
    hide TreeOk, IsBody, All, HasUnicode, NodeText, ReadTree, TreeText, KeyText, EntryText, EntryRun, StrRun, EntryTaken,
         PlainEntry, TreeTaken, SpoiltFrom;
    ghost var m0 := mem[..];
    assert m0[lo..hi] == mem[lo..hi];
    ValueStands(m0, isMap, lo, hi, e, tail);
    var key, at, left := [], lo, free;
    if isMap {
      var k := DecodeKey(mem, lo, hi, e, tail, free, strtod);
      match k
      case Failed(error) =>
        KeyFailed(m0, mem[..], lo, hi, e, tail, free, strtod, error);
        return Failed(error);
      case Decoded(p, l) => key, at, left := p.0, p.1, l;
    }
    ghost var m1 := mem[..];
    SuffixKept(m0, m1, at, hi);
    ReadTreeOf(e.val, tail);
    var v := TakeVal(mem, at, hi, left, strtod);
    PrefixKept(m1, mem[..], lo, at);
    EntryDone(m0, m1, mem[..], isMap, lo, at, hi, e, tail, free, left, strtod, key, v);
    match v
    case Refused(error) => return Failed(error);
    case Took(obj, after, l) => return Decoded((KV(key, obj), after), l);
  }

  ghost predicate EntryTaken(m0: bytes, m: bytes, isMap: bool, lo: nat, hi: nat, e: Entry, tail: bytes, free: nat,
                             strtod: Strtod, r: Result<(KV, nat)>)
    requires lo <= hi <= |m0|
  {
    && |m| == |m0| && |tail| < hi - lo
    && var run := EntryRun(isMap, e, free, strtod, |tail| + (|m0| - hi));
       && r == WithAt(run.result, hi - |tail|)
       && (r.Decoded? ==> SpoiltFrom(m0, m, hi - |tail|, run.spoilt))
       && (PlainEntry(isMap, e) ==> m[hi - |tail|..] == m0[hi - |tail|..])
  }

  lemma KeyFailed(m0: bytes, m: bytes, lo: nat, hi: nat, e: Entry, tail: bytes, free: nat, strtod: Strtod, error: Error)
    requires |m| == |m0| && lo <= hi <= |m0| && lo < hi - |TreeText(e.val) + tail|
    requires !HasUnicode(e.key) ==> var at := hi - |TreeText(e.val) + tail|; m[at..] == m0[at..]
    requires var run := StrRun(e.key, free, 1 + |e.keyWs| + 1 + |TreeText(e.val) + tail| + (|m0| - hi));
             if run.result.Failed? then run.result == Failed(error) else run.spoilt > 1 + |e.keyWs| && error == ParseError
    ensures EntryTaken(m0, m, true, lo, hi, e, tail, free, strtod, Failed(error))
  {
    hide HasUnicode, StrRun, TreeText, PlainNode, NodeRun;
    if !HasUnicode(e.key) { SuffixKept(m0, m, hi - |TreeText(e.val) + tail|, hi - |tail|); }
  }

  lemma EntryDone(m0: bytes, m1: bytes, m: bytes, isMap: bool, lo: nat, at: nat, hi: nat, e: Entry, tail: bytes,
                  free: nat, left: nat, strtod: Strtod, key: bytes, v: Taken)
    requires |m| == |m1| == |m0| && lo <= at <= hi <= |m0| && at == hi - |TreeText(e.val) + tail|
    requires m1[at..] == m0[at..] && ValueTaken(m1, m, at, hi, left, strtod, v)
    requires ReadTree(m1[at..hi]) == Some((e.val, tail))
    requires if isMap then
               var run := StrRun(e.key, free, 1 + |e.keyWs| + 1 + |TreeText(e.val) + tail| + (|m0| - hi));
               run.result == Decoded(key, left) && run.spoilt <= 1 + |e.keyWs|
             else key == [] && left == free
    ensures EntryTaken(m0, m, isMap, lo, hi, e, tail, free, strtod,
                       match v { case Refused(x) => Failed(x) case Took(o, after, l) => Decoded((KV(key, o), after), l) })
  {
    hide HasUnicode, StrRun, TreeText, PlainNode, NodeRun, ReadTree;
    SuffixKept(m0, m1, at, hi - |tail|);
    var run := TreeRun(e.val, left, strtod, |tail| + (|m0| - hi));
    if v.Took? { SuffixKept(m0, m1, at, hi - |tail| + run.spoilt); }
  }

  lemma ValueStands(m0: bytes, isMap: bool, lo: nat, hi: nat, e: Entry, tail: bytes)
    requires lo <= hi <= |m0| && m0[lo..hi] == EntryText(isMap, e) + tail
    ensures var v := TreeText(e.val) + tail; |v| <= hi - lo && m0[hi - |v|..hi] == v && (!isMap ==> hi - |v| == lo)
  {
    hide TreeText, KeyText;
    var v := TreeText(e.val) + tail;
    if isMap {
      assert EntryText(isMap, e) + tail == KeyText(e) + v;
      SuffixOf(m0, lo, hi, KeyText(e), v);
    } else {
      assert m0[lo..hi] == [] + v;
      SuffixOf(m0, lo, hi, [], v);
    }
  }

  /** Between two entries: the rest still stands in the buffer, and what it yields is all that is missing. Behind the
      last entry, what it has spoilt. */
  ghost predicate Going(m0: bytes, m: bytes, isMap: bool, es: seq<Entry>, i: nat, at: nat, hi: nat, free: nat,
                        kvs: seq<KV>, left: nat, strtod: Strtod)
    requires i <= |es| && at <= hi <= |m| == |m0|
  {
    var run := EntriesRun(isMap, es, free, strtod, |m0| - hi);
    if i < |es| then
      && m[at..hi] == EntriesText(isMap, es[i..]) && m[hi..] == m0[hi..]
      && run == AppendRun(kvs, EntriesRun(isMap, es[i..], left, strtod, |m0| - hi))
    else run.result == Decoded(kvs, left) && SpoiltFrom(m0, m, hi, run.spoilt)
  }

  lemma GoingStart(m: bytes, isMap: bool, es: seq<Entry>, lo: nat, hi: nat, free: nat, strtod: Strtod)
    requires lo <= hi <= |m| && m[lo..hi] == EntriesText(isMap, es)
    ensures Going(m, m, isMap, es, 0, lo, hi, free, [], free, strtod)
  {
    hide EntriesText;
    assert es[0..] == es;
    var run := EntriesRun(isMap, es, free, strtod, |m| - hi);
    if run.result.Decoded? { assert [] + run.result.value == run.result.value; }
  }

  /** One more entry: it is the last, its comma follows, or it has failed. */
  lemma EntryStep(m0: bytes, m1: bytes, m: bytes, isMap: bool, es: seq<Entry>, i: nat, at: nat, hi: nat, free: nat,
                  kvs: seq<KV>, left: nat, strtod: Strtod, x: Result<(KV, nat)>)
    requires i < |es| && at <= hi <= |m| == |m0| == |m1| && EntriesOk(isMap, es[i..])
    requires Going(m0, m1, isMap, es, i, at, hi, free, kvs, left, strtod)
    requires EntryTaken(m1, m, isMap, at, hi, es[i], EntriesTail(isMap, es[i..]), left, strtod, x)
    ensures x.Failed? ==> EntriesRun(isMap, es, free, strtod, |m0| - hi) == Ran(Failed(x.error), 0)
    ensures x.Failed? && PlainEntry(isMap, es[i]) ==> m[hi..] == m0[hi..]
    ensures x.Decoded? ==> at < x.value.1 <= hi
    ensures x.Decoded? && i + 1 == |es| ==>
              x.value.1 == hi && Going(m0, m, isMap, es, i + 1, hi, hi, free, kvs + [x.value.0], x.free, strtod)
    ensures x.Decoded? && i + 1 < |es| ==>
              && x.value.1 < hi
              && if m[x.value.1] == COMMA
                 then Going(m0, m, isMap, es, i + 1, x.value.1 + 1, hi, free, kvs + [x.value.0], x.free, strtod)
                 else EntriesRun(isMap, es, free, strtod, |m0| - hi) == Ran(Failed(ParseError), 0) && !PlainEntry(isMap, es[i])
  {
    hide EntriesOk, EntriesText, EntriesRun, EntryRun, EntryText, PlainEntry, EntryOk;
    var more, room := es[i..], |m0| - hi;
    var tail := EntriesTail(isMap, more);
    FirstEntry(isMap, more);
    assert more[0] == es[i] && more[1..] == es[i + 1..];
    SuffixOf(m1, at, hi, EntryText(isMap, es[i]), tail);
    RunNext(isMap, more, left, strtod, room, kvs);
    if x.Failed? {
      if PlainEntry(isMap, es[i]) { SuffixKept(m1, m, hi - |tail|, hi); }
    } else if |more| == 1 {
      LastSpoils(m0, m1, m, hi, EntryRun(isMap, es[i], left, strtod, |tail| + room).spoilt);
    } else {
      CommaStep(m0, m1, m, isMap, es, i, hi, tail, left, strtod);
    }
  }

  lemma LastSpoils(m0: bytes, m1: bytes, m: bytes, hi: nat, k: nat)
    requires hi <= |m0| == |m1| && m1[hi..] == m0[hi..] && SpoiltFrom(m1, m, hi, k)
    ensures SpoiltFrom(m0, m, hi, k)
  {
    SuffixKept(m0, m1, hi, hi + k);
  }

  /** The comma behind an entry is there exactly if it is not spoilt. */
  lemma CommaStep(m0: bytes, m1: bytes, m: bytes, isMap: bool, es: seq<Entry>, i: nat, hi: nat, tail: bytes, left: nat,
                  strtod: Strtod)
    requires i + 1 < |es| && |m| == |m0| == |m1| && |tail| <= hi <= |m0| && tail == [COMMA] + EntriesText(isMap, es[i + 1..])
    requires m1[hi - |tail|..hi] == tail && m1[hi..] == m0[hi..]
    requires var run := EntryRun(isMap, es[i], left, strtod, |tail| + (|m0| - hi)); SpoiltFrom(m1, m, hi - |tail|, run.spoilt)
    requires PlainEntry(isMap, es[i]) ==> m[hi - |tail|..] == m1[hi - |tail|..]
    ensures var run, at := EntryRun(isMap, es[i], left, strtod, |tail| + (|m0| - hi)), hi - |tail|;
            && at < hi && (m[at] == COMMA <==> run.spoilt == 0) && (m[at] != COMMA ==> !PlainEntry(isMap, es[i]))
            && (run.spoilt == 0 ==> m[at + 1..hi] == EntriesText(isMap, es[i + 1..]) && m[hi..] == m0[hi..])
  {
    hide EntriesText, EntryRun, PlainEntry;
    var at := hi - |tail|;
    assert m1[at..hi][0] == m1[at];
    if PlainEntry(isMap, es[i]) { SuffixKept(m1, m, at, hi); }
    if EntryRun(isMap, es[i], left, strtod, |tail| + (|m0| - hi)).spoilt == 0 {
      SuffixKept(m1, m, at, hi);
      CommaThen(m, at, hi, EntriesText(isMap, es[i + 1..]));
    }
  }

  lemma RunNext(isMap: bool, es: seq<Entry>, free: nat, strtod: Strtod, room: nat, kvs: seq<KV>)
    requires es != []
    ensures var first := EntryRun(isMap, es[0], free, strtod, |EntriesTail(isMap, es)| + room);
            AppendRun(kvs, EntriesRun(isMap, es, free, strtod, room)) ==
            match first.result
            case Failed(e) => Ran(Failed(e), 0)
            case Decoded(kv, left) =>
              if |es| == 1 then Ran(Decoded(kvs + [kv], left), first.spoilt)
              else if first.spoilt > 0 then Ran(Failed(ParseError), 0)
              else AppendRun(kvs + [kv], EntriesRun(isMap, es[1..], left, strtod, room))
  {
    hide EntryRun, EntriesTail;
    var first := EntryRun(isMap, es[0], free, strtod, |EntriesTail(isMap, es)| + room);
    if first.result.Decoded? && |es| > 1 && first.spoilt == 0 {
      var rest := EntriesRun(isMap, es[1..], first.result.free, strtod, room);
      if rest.result.Decoded? {
        assert kvs + ([first.result.value] + rest.result.value) == kvs + [first.result.value] + rest.result.value;
      }
    }
  }

  lemma FirstPlain(isMap: bool, es: seq<Entry>)
    requires es != []
    ensures PlainEntries(isMap, es) <==> PlainEntry(isMap, es[0]) && PlainEntries(isMap, es[1..])
  {
    hide PlainEntry;
  }

  lemma {:induction false} PlainAt(isMap: bool, es: seq<Entry>, i: nat)
    requires PlainEntries(isMap, es) && i < |es|
    ensures PlainEntry(isMap, es[i])
    decreases i
  {
    hide PlainEntry;
    if i > 0 { PlainAt(isMap, es[1..], i - 1); }
  }

  /** Decodes the entries that stand between the brackets of a collection, in `mem[lo..hi]`. */
  method DecodeEntries(mem: array<byte>, isMap: bool, lo: nat, hi: nat, count: nat, ghost es: seq<Entry>, free: nat,
                       strtod: Strtod)
    returns (r: Result<seq<KV>>)
    requires lo <= hi <= mem.Length
    requires EntriesOk(isMap, es) && mem[lo..hi] == EntriesText(isMap, es) && count == |es|
    modifies mem
    ensures mem[..lo] == old(mem[..lo])
    ensures var run := EntriesRun(isMap, es, free, strtod, mem.Length - hi);
            r == run.result && (r.Decoded? ==> SpoiltFrom(old(mem[..]), mem[..], hi, run.spoilt))
    ensures PlainEntries(isMap, es) ==> mem[hi..] == old(mem[hi..])
    decreases hi - lo, 5
  {
    hide EntriesOk, EntriesText, PlainEntries, PlainEntry, EntriesRun, EntryRun, EntryOk, EntryText, Parse, SpoiltFrom, Going,
         EntriesTail, WithAt, ValueEnds, EntryTaken;
    ghost var m0 := mem[..];
    var left := free;
    var kvs: seq<KV>, at, i := [], lo, 0;
    assert es[0..] == es && mem[lo..hi] == m0[lo..hi];
    GoingStart(m0, isMap, es, lo, hi, free, strtod);
    while i < count
      invariant 0 <= i <= count && lo <= at <= hi
      invariant EntriesOk(isMap, es[i..]) && mem[..lo] == m0[..lo]
      invariant Going(m0, mem[..], isMap, es, i, at, hi, free, kvs, left, strtod)
      invariant PlainEntries(isMap, es) ==> mem[hi..] == m0[hi..]
    {
      ghost var more, m1 := es[i..], mem[..];
      FirstEntry(isMap, more);
      RestStands(m0, m1, isMap, es, i, at, hi, free, kvs, left, strtod);
      assert more[0] == es[i] && more[1..] == es[i + 1..] && m1[at..hi] == mem[at..hi];
      var x := DecodeEntry(mem, isMap, at, hi, es[i], EntriesTail(isMap, more), left, strtod);
      PrefixKept(m1, mem[..], lo, at);
      EntryStep(m0, m1, mem[..], isMap, es, i, at, hi, free, kvs, left, strtod, x);
      PlainKept(m0, m1, mem[..], isMap, es, i, at, hi, EntriesTail(isMap, more), left, strtod, x);
      if x.Failed? { return Failed(x.error); }
      kvs, left, at := kvs + [x.value.0], x.free, x.value.1;
      if i != count - 1 {
        OnChar(COMMA, mem[at..hi], None, 0);
        var sep := Parse(Char(COMMA), mem[at..hi], None, 0);
        if !sep.ok { return Failed(ParseError); }
        at := at + 1;
      }
      i := i + 1;
    }
    GoingEnd(m0, mem[..], isMap, es, at, hi, free, kvs, left, strtod);
    return Decoded(kvs, left);
  }

  lemma RestStands(m0: bytes, m: bytes, isMap: bool, es: seq<Entry>, i: nat, at: nat, hi: nat, free: nat, kvs: seq<KV>,
                   left: nat, strtod: Strtod)
    requires i < |es| && at <= hi <= |m| == |m0| && Going(m0, m, isMap, es, i, at, hi, free, kvs, left, strtod)
    ensures m[at..hi] == EntriesText(isMap, es[i..])
  {
    hide EntriesText, EntriesRun;
  }

  lemma GoingEnd(m0: bytes, m: bytes, isMap: bool, es: seq<Entry>, at: nat, hi: nat, free: nat, kvs: seq<KV>,
                 left: nat, strtod: Strtod)
    requires at <= hi <= |m| == |m0| && Going(m0, m, isMap, es, |es|, at, hi, free, kvs, left, strtod)
    ensures var run := EntriesRun(isMap, es, free, strtod, |m0| - hi);
            run.result == Decoded(kvs, left) && SpoiltFrom(m0, m, hi, run.spoilt)
  {
    hide EntriesRun, SpoiltFrom;
  }

  lemma PlainKept(m0: bytes, m1: bytes, m: bytes, isMap: bool, es: seq<Entry>, i: nat, at: nat, hi: nat, tail: bytes,
                  left: nat, strtod: Strtod, x: Result<(KV, nat)>)
    requires i < |es| && at <= hi <= |m0| == |m1|
    requires EntryTaken(m1, m, isMap, at, hi, es[i], tail, left, strtod, x)
    requires PlainEntries(isMap, es) ==> m1[hi..] == m0[hi..]
    ensures PlainEntries(isMap, es) ==> m[hi..] == m0[hi..] && PlainEntry(isMap, es[i])
  {
    hide PlainEntries, PlainEntry, EntryRun, SpoiltFrom;
    if PlainEntries(isMap, es) {
      PlainAt(isMap, es, i);
      SuffixKept(m1, m, hi - |tail|, hi);
    }
  }

  lemma CommaThen(m: bytes, at: nat, hi: nat, rest: bytes)
    requires at <= hi <= |m| && m[at..hi] == [COMMA] + rest
    ensures at < hi && m[at] == COMMA && m[at + 1..hi] == rest
  {
    assert m[at..hi][0] == m[at];
    assert m[at..hi][1..] == m[at + 1..hi];
  }

  // ---- Without escapes, and with one ----

  /** Without `\uXXXX` escapes the result is the value of the tree, and nothing is spoilt. */
  lemma {:induction false} PlainRun(n: Node, free: nat, strtod: Strtod, room: nat)
    requires PlainNode(n)
    ensures NodeRun(n, free, strtod, room) == Ran(NodeResult(n, free, strtod), 0)
    decreases n
  {
    hide EntriesRun, EntriesResult, PlainEntries, Cost, HasUnicode, Denotes;
    if n.CollNode? && Cost(n.isMap, |n.entries|) <= free {
      PlainEntriesRun(n.isMap, n.entries, free - Cost(n.isMap, |n.entries|), strtod, room + 1);
    }
  }

  lemma {:induction false} PlainEntriesRun(isMap: bool, es: seq<Entry>, free: nat, strtod: Strtod, room: nat)
    requires PlainEntries(isMap, es)
    ensures EntriesRun(isMap, es, free, strtod, room) == Ran(EntriesResult(isMap, es, free, strtod), 0)
    decreases es
  {
    hide NodeRun, NodeResult, PlainNode, HasUnicode, Denotes, EntriesTail, TreeText;
    if es != [] {
      var e, behind := es[0], |EntriesTail(isMap, es)| + room;
      PlainEntryRun(isMap, e, free, strtod, behind);
      var first := EntryResult(isMap, e, free, strtod);
      if first.Decoded? {
        PlainEntriesRun(isMap, es[1..], first.free, strtod, room);
        if |es| == 1 { assert es[1..] == [] && [first.value] + [] == [first.value]; }
      }
    }
  }

  lemma {:induction false} PlainEntryRun(isMap: bool, e: Entry, free: nat, strtod: Strtod, room: nat)
    requires PlainEntry(isMap, e)
    ensures EntryRun(isMap, e, free, strtod, room) == Ran(EntryResult(isMap, e, free, strtod), 0)
    decreases e
  {
    hide NodeRun, NodeResult, PlainNode, HasUnicode, Denotes, TreeText;
    if !isMap || Denotes(e.key).Some? { PlainRun(e.val.node, free, strtod, |e.val.post| + room); }
  }

  /** With one, the result is not what the text means. */
  lemma {:induction false} EscapeMisreads(n: Node, free: nat, strtod: Strtod, room: nat)
    requires !PlainNode(n) && NodeRun(n, free, strtod, room).result.Decoded?
    ensures Misread(n, NodeRun(n, free, strtod, room).result.value, strtod)
    decreases n
  {
    hide EntriesRun, PlainEntries, Cost, HasUnicode, Denotes, Misread, MisreadEntries, Spill, Garbled;
    match n
    case StrNode(body) =>
      DenotesShrinks(body);
      MisreadString(body, Garbled(body), strtod);
    case CollNode(isMap, inner, es) =>
      var left := free - Cost(isMap, |es|);
      EscapeMisreadsEntries(isMap, es, left, strtod, room + 1);
      MisreadCollection(isMap, inner, es, EntriesRun(isMap, es, left, strtod, room + 1).result.value, strtod);
    case _ =>
  }

  lemma {:induction false} EscapeMisreadsEntries(isMap: bool, es: seq<Entry>, free: nat, strtod: Strtod, room: nat)
    requires !PlainEntries(isMap, es) && EntriesRun(isMap, es, free, strtod, room).result.Decoded?
    ensures MisreadEntries(isMap, es, EntriesRun(isMap, es, free, strtod, room).result.value, strtod)
    decreases es
  {
    hide EntryRun, PlainEntry, EntriesTail, MisreadEntry, MisreadEntries, EntriesResult, EntryResult;
    var run := EntriesRun(isMap, es, free, strtod, room);
    var first := EntryRun(isMap, es[0], free, strtod, |EntriesTail(isMap, es)| + room);
    FirstPlain(isMap, es);
    RunLength(isMap, es, free, strtod, room);
    if !PlainEntry(isMap, es[0]) {
      EscapeMisreadsEntry(isMap, es[0], free, strtod, |EntriesTail(isMap, es)| + room);
      MisreadAt(isMap, es, run.result.value, strtod, 0);
    } else {
      assert PlainEntries(isMap, []);
      EscapeMisreadsEntries(isMap, es[1..], first.result.free, strtod, room);
      MisreadRest(isMap, es, run.result.value, strtod);
    }
  }

  lemma {:induction false} RunLength(isMap: bool, es: seq<Entry>, free: nat, strtod: Strtod, room: nat)
    ensures var r := EntriesRun(isMap, es, free, strtod, room).result; r.Decoded? ==> |r.value| == |es|
    decreases |es|
  {
    hide EntryRun, EntriesTail;
    if es != [] {
      var first := EntryRun(isMap, es[0], free, strtod, |EntriesTail(isMap, es)| + room);
      if first.result.Decoded? { RunLength(isMap, es[1..], first.result.free, strtod, room); }
    }
  }

  lemma MisreadRest(isMap: bool, es: seq<Entry>, kvs: seq<KV>, strtod: Strtod)
    requires es != [] && |kvs| == |es| && MisreadEntries(isMap, es[1..], kvs[1..], strtod)
    ensures MisreadEntries(isMap, es, kvs, strtod)
  {
    hide EntryResult;
    forall f: nat | EntriesResult(isMap, es, f, strtod).Decoded?
      ensures EntriesResult(isMap, es, f, strtod).value != kvs
    {
      var left := EntryResult(isMap, es[0], f, strtod).free;
      var rest := EntriesResult(isMap, es[1..], left, strtod);
      assert rest.value == EntriesResult(isMap, es, f, strtod).value[1..];
    }
  }

  lemma {:induction false} EscapeMisreadsEntry(isMap: bool, e: Entry, free: nat, strtod: Strtod, room: nat)
    requires !PlainEntry(isMap, e) && EntryRun(isMap, e, free, strtod, room).result.Decoded?
    ensures MisreadEntry(isMap, e, EntryRun(isMap, e, free, strtod, room).result.value, strtod)
    decreases e
  {
    hide NodeRun, PlainNode, HasUnicode, Denotes, TreeText, MisreadEntry, Misread, Spill, Garbled;
    var kv := EntryRun(isMap, e, free, strtod, room).result.value;
    if isMap && HasUnicode(e.key) {
      DenotesShrinks(e.key);
      MisreadKey(e, kv.key, kv.val, strtod);
    } else {
      var left := if isMap then StrRun(e.key, free, 1 + |e.keyWs| + 1 + |TreeText(e.val)| + room).result.free else free;
      EscapeMisreads(e.val.node, left, strtod, |e.val.post| + room);
      MisreadValue(isMap, e, kv.key, kv.val, strtod);
    }
  }

  /** What decoding the text `b` may yield: for the text of a tree, the value of the tree exactly if the tree has no
      `\uXXXX` escape; for any other text, an error. */
  ghost predicate DecodesTo(b: bytes, free: nat, strtod: Strtod, r: Result<Obj>) {
    && (forall t | TreeOk(t) && TreeText(t) == b ::
          if PlainNode(t.node) then r == NodeResult(t.node, free, strtod)
          else r.Decoded? ==> Misread(t.node, r.value, strtod))
    && ((forall t | TreeOk(t) :: TreeText(t) != b) ==> r.Failed?)
  }

  /** The value at the front of `b` has no `\uXXXX` escape. */
  ghost predicate PlainFront(b: bytes) { ReadTree(b).Some? && PlainNode(ReadTree(b).value.0.node) }

  /** Decodes the first `len` bytes of the memory: anything after the first value is an error. The result for the text
      of a tree is exactly `TreeRun`; nothing behind the text changes if it has no `\uXXXX` escape. */
  method DecodeDestructive(mem: array<byte>, len: nat, free: nat, strtod: Strtod) returns (r: Result<Obj>)
    requires len <= mem.Length
    modifies mem
    ensures DecodesTo(old(mem[..len]), free, strtod, r)
    ensures forall t | TreeOk(t) && TreeText(t) == old(mem[..len]) :: r == TreeRun(t, free, strtod, mem.Length - len).result
    ensures PlainFront(old(mem[..len])) ==> mem[len..] == old(mem[len..])
  {
    hide ReadTree, TreeOk, TreeText, PlainNode, TreeRun, SpoiltFrom, DecodesTo;
    ghost var m0, b := mem[..], mem[..len];
    assert m0[0..len] == b;
    var v := TakeVal(mem, 0, len, free, strtod);
    forall t ensures ReadTree(b) == Some((t, [])) <==> TreeOk(t) && TreeText(t) == b { AcceptsExactlyTrees(b, t); }
    if PlainFront(b) { SuffixKept(m0, mem[..], len - |ReadTree(b).value.1|, len); }
    r := if v.Refused? then Failed(v.error) else if v.at < len then Failed(ParseError) else Decoded(v.obj, v.free);
    DecodesAsTree(b, free, strtod, mem.Length - len, r);
  }

  lemma DecodesAsTree(b: bytes, free: nat, strtod: Strtod, room: nat, r: Result<Obj>)
    requires forall t | TreeOk(t) && TreeText(t) == b :: r == TreeRun(t, free, strtod, room).result
    requires (forall t | TreeOk(t) :: TreeText(t) != b) ==> r.Failed?
    ensures DecodesTo(b, free, strtod, r)
  {
    hide TreeOk, TreeText, PlainNode, NodeRun, NodeResult, Misread;
    forall t | TreeOk(t) && TreeText(t) == b
      ensures if PlainNode(t.node) then r == NodeResult(t.node, free, strtod)
              else r.Decoded? ==> Misread(t.node, r.value, strtod)
    {
      if PlainNode(t.node) { PlainRun(t.node, free, strtod, |t.post| + room); }
      else if r.Decoded? { EscapeMisreads(t.node, free, strtod, |t.post| + room); }
    }
  }

  // ---- When an accepted text is decoded ----

  /** Every number of the tree is in range. */
  predicate InRangeNode(n: Node, strtod: Strtod)
    decreases n
  {
    match n
    case NumNode(num) => NumberResult(num, 0, strtod).Decoded?
    case CollNode(_, _, es) => InRangeEntries(es, strtod)
    case _ => true
  }

  predicate InRangeEntries(es: seq<Entry>, strtod: Strtod)
    decreases es
  {
    es != [] ==> InRangeNode(es[0].val.node, strtod) && InRangeEntries(es[1..], strtod)
  }

  /** The memory that the entries of all collections of the tree take. */
  function NodeNeed(n: Node): nat
    decreases n
  {
    if n.CollNode? then Cost(n.isMap, |n.entries|) + EntriesNeed(n.entries) else 0
  }

  function EntriesNeed(es: seq<Entry>): nat
    decreases es
  {
    if es == [] then 0 else NodeNeed(es[0].val.node) + EntriesNeed(es[1..])
  }

  /** An accepted value without `\uXXXX` escapes is decoded exactly when its numbers are in range and the memory
      suffices for its collections; it uses no more memory than that, and syntax is never at fault. */
  lemma {:induction false} DecodesExactly(n: Node, free: nat, strtod: Strtod)
    requires NodeOk(n) && PlainNode(n)
    ensures var r := NodeResult(n, free, strtod);
            && (r.Decoded? <==> InRangeNode(n, strtod) && NodeNeed(n) <= free)
            && (r.Decoded? ==> r.free == free - NodeNeed(n) && Need(r.value) == NodeNeed(n))
            && r != Failed(ParseError)
    decreases n
  {
    hide EntriesOk, PlainEntries, EntriesResult, InRangeEntries, EntriesNeed, Denotes, HasUnicode, IsBody, NumberOk,
         NumberText, NeedAll, Cost;
    match n
    case StrNode(body) => NoPlainString(body); SimpleDenotes(body);
    case NumNode(num) =>
    case WordNode(_) =>
    case CollNode(isMap, _, es) =>
      if Cost(isMap, |es|) <= free { DecodesEntriesExactly(isMap, es, free - Cost(isMap, |es|), strtod); }
  }

  lemma SimpleDenotes(s: bytes)
    requires IsSimple(s)
    ensures Denotes(s).Some?
  {
  }

  lemma {:induction false} DecodesEntriesExactly(isMap: bool, es: seq<Entry>, free: nat, strtod: Strtod)
    requires EntriesOk(isMap, es) && PlainEntries(isMap, es)
    ensures var r := EntriesResult(isMap, es, free, strtod);
            && (r.Decoded? <==> InRangeEntries(es, strtod) && EntriesNeed(es) <= free)
            && (r.Decoded? ==> r.free == free - EntriesNeed(es) && NeedAll(r.value) == EntriesNeed(es) && |r.value| == |es|)
            && r != Failed(ParseError)
    decreases es
  {
    hide NodeOk, PlainNode, NodeResult, InRangeNode, NodeNeed, Denotes, HasUnicode, IsBody, Need;
    if es != [] {
      var e := es[0];
      assert EntryOk(isMap, e) && TreeOk(e.val);
      DecodesExactly(e.val.node, free, strtod);
      if isMap { NoPlainString(e.key); SimpleDenotes(e.key); }
      var first := EntryResult(isMap, e, free, strtod);
      if first.Decoded? {
        DecodesEntriesExactly(isMap, es[1..], first.free, strtod);
        var rest := EntriesResult(isMap, es[1..], first.free, strtod);
        if rest.Decoded? { assert ([first.value] + rest.value)[1..] == rest.value; }
      }
    }
  }
}
