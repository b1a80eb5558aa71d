/** The parser combinators and the grammar of `ggl-json/src/json_decode.c`, and the proof that running the
    grammar recognises exactly the trees of `JsonTree`. */
module JsonGrammar {
  import opened Buffer
  import opened JsonSyntax
  import opened JsonTree

  datatype JsonType = StrType | NumberType | ObjectType | ArrayType | TrueType | FalseType | NullType

  /** The record a parser fills in. `behind` says where the content stands: so many bytes of the buffer follow it.
      `count` survives a failed alternative, as in the source. */
  datatype Output = Output(ty: JsonType, content: bytes, behind: nat, count: nat)

  /** A parser as data. Sequences and alternatives of more than two parsers are nested to the right. `Value`
      stands for the grammar's reference to itself. */
  datatype Parser =
    | Char(c: byte)
    | Text(s: bytes)
    | Range(lo: byte, hi: byte)
    | Codepoint
    | OneOf(p: Parser, q: Parser)
    | Then(p: Parser, q: Parser)
    | Many(p: Parser)
    | Maybe(p: Parser)
    | Nested(p: Parser)
    | ResultVal(ty: JsonType, p: Parser)
    | Count(p: Parser)
    | Value

  /** What a call leaves behind: the answer, the unread buffer and the output record (`None` for NULL); or the
      call never returns. */
  datatype Outcome = Diverges | Done(ok: bool, buf: bytes, out: Option<Output>)

  function SetResult(out: Option<Output>, ty: JsonType, content: bytes, behind: nat): Option<Output> {
    if out.None? then None else Some(Output(ty, content, behind, out.value.count))
  }

  function AddCount(out: Option<Output>, n: nat): Option<Output> {
    if out.None? then None else Some(out.value.(count := out.value.count + n))
  }

  predicate IsContinuation(c: byte) { 0x80 <= c < 0xC0 }

  /** The length announced by the first byte of a UTF-8 sequence. */
  function Utf8Length(c: byte): nat {
    if c < 0x80 then 1
    else if 0xC0 <= c < 0xE0 then 2
    else if 0xE0 <= c < 0xF0 then 3
    else if 0xF0 <= c < 0xF8 then 4
    else 0
  }

  /** The bytes taken as one plain character. The test of the continuation bytes looks at the first byte each
      time, as the source does. */
  function CodepointLength(b: bytes): (n: nat)
    ensures n <= |b|
    ensures n > 0 <==> b != [] && IsPlain(b[0])
    ensures n <= 1
  {
    if b == [] || b[0] <= 0x1F || b[0] == QUOTE || b[0] == BACKSLASH || IsContinuation(b[0]) then 0
    else
      var n := Utf8Length(b[0]);
      if |b| < n || (n > 1 && !IsContinuation(b[0])) then 0 else n
  }

  /** Runs a parser on `b`. A reference to the grammar must be met with less than `limit` bytes left, and each
      round of a repetition must read something: otherwise the call would not return. */
  function Parse(p: Parser, b: bytes, out: Option<Output>, limit: nat): (r: Outcome)
    ensures r.Done? ==> |r.buf| <= |b|
    ensures r.Done? && !r.ok ==> r.buf == b
    ensures r.Done? ==> (r.out.None? <==> out.None?)
    decreases limit, p, |b|
  {
    match p
    case Char(c) => if b != [] && b[0] == c then Done(true, b[1..], out) else Done(false, b, out)
    case Text(s) => if HasPrefix(b, s) then Done(true, b[|s|..], out) else Done(false, b, out)
    case Range(lo, hi) => if b != [] && lo <= b[0] <= hi then Done(true, b[1..], out) else Done(false, b, out)
    case Codepoint =>
      var n := CodepointLength(b);
      if n > 0 then Done(true, b[n..], out) else Done(false, b, out)
    case OneOf(p1, p2) =>
      var r := Parse(p1, b, out, limit);
      if r.Done? && !r.ok then Parse(p2, r.buf, r.out, limit) else r
    case Then(p1, p2) =>
      var r := Parse(p1, b, out, limit);
      if r.Diverges? then r
      else if !r.ok then Done(false, b, r.out)
      else
        var r2 := Parse(p2, r.buf, r.out, limit);
        if r2.Done? && !r2.ok then Done(false, b, r2.out) else r2
    case Many(p1) =>
      var r := Parse(p1, b, out, limit);
      if r.Diverges? then r
      else if !r.ok then Done(true, r.buf, r.out)
      else if |r.buf| < |b| then Parse(p, r.buf, r.out, limit)
      else Diverges
    case Maybe(p1) =>
      var r := Parse(p1, b, out, limit);
      if r.Diverges? then r else Done(true, r.buf, r.out)
    case Nested(p1) =>
      var r := Parse(p1, b, None, limit);
      if r.Diverges? then r else Done(r.ok, r.buf, out)
    case ResultVal(ty, p1) =>
      var r := Parse(p1, b, out, limit);
      if r.Diverges? || !r.ok then r else Done(true, r.buf, SetResult(r.out, ty, b[..|b| - |r.buf|], |r.buf|))
    case Count(p1) =>
      var r := Parse(p1, b, out, limit);
      if r.Diverges? || !r.ok then r else Done(true, r.buf, AddCount(r.out, 1))
    case Value => if |b| < limit then Parse(VALUE, b, out, |b|) else Diverges
  }

  // ---- The grammar ----

  const DIGIT: Parser := Range(48, 57)

  const HEX_DIGIT: Parser := OneOf(DIGIT, OneOf(Range(65, 70), Range(97, 102)))

  const SIMPLE_ESCAPE: Parser :=
    OneOf(Char(98), OneOf(Char(102), OneOf(Char(110), OneOf(Char(114), OneOf(Char(116), UNICODE_ESCAPE)))))

  const UNICODE_ESCAPE: Parser :=
    Then(Char(LOWER_U), Then(HEX_DIGIT, Then(HEX_DIGIT, Then(HEX_DIGIT, HEX_DIGIT))))

  const ESCAPED: Parser := OneOf(Char(QUOTE), OneOf(Char(BACKSLASH), OneOf(Char(47), SIMPLE_ESCAPE)))

  const STR_ESCAPE: Parser := Then(Char(BACKSLASH), ESCAPED)

  const WS_CHAR: Parser := OneOf(Char(32), OneOf(Char(10), OneOf(Char(13), Char(9))))

  const WHITESPACE: Parser := Many(WS_CHAR)

  const STR_UNIT: Parser := OneOf(Codepoint, STR_ESCAPE)

  const STR_BODY: Parser := Many(STR_UNIT)

  const STR: Parser := Then(Char(QUOTE), Then(ResultVal(StrType, STR_BODY), Char(QUOTE)))

  const WHOLE_PART: Parser := OneOf(Char(ZERO), Then(Range(49, 57), Many(DIGIT)))

  const INT_PART: Parser := Then(Maybe(Char(MINUS)), WHOLE_PART)

  const FRAC_PART: Parser := Then(Char(DOT), Many(DIGIT))

  const SIGN: Parser := Maybe(OneOf(Char(PLUS), Char(MINUS)))

  const EXPONENT: Parser := Then(OneOf(Char(101), Char(69)), Then(SIGN, Then(DIGIT, Many(DIGIT))))

  const NUMBER: Parser := ResultVal(NumberType, Then(INT_PART, Then(Maybe(FRAC_PART), Maybe(EXPONENT))))

  const OBJECT_KV: Parser := Nested(Then(STR, Then(WHITESPACE, Then(Char(COLON), Value))))

  const ARRAY_ELEM: Parser := Nested(Value)

  function EntryParser(isMap: bool): Parser { if isMap then OBJECT_KV else ARRAY_ELEM }

  function Separator(isMap: bool): Parser { if isMap then Then(Char(COMMA), WHITESPACE) else Char(COMMA) }

  function EntriesParser(isMap: bool): Parser {
    Then(Many(Count(Then(EntryParser(isMap), Separator(isMap)))), Count(EntryParser(isMap)))
  }

  function CollectionType(isMap: bool): JsonType { if isMap then ObjectType else ArrayType }

  function CollectionParser(isMap: bool): Parser {
    Then(Char(Open(isMap)),
         Then(WHITESPACE,
              Then(ResultVal(CollectionType(isMap), Maybe(EntriesParser(isMap))), Char(Close(isMap)))))
  }

  const WORDS: Parser :=
    OneOf(ResultVal(TrueType, Text(TRUE_TEXT)),
          OneOf(ResultVal(FalseType, Text(FALSE_TEXT)), ResultVal(NullType, Text(NULL_TEXT))))

  const ANY_NODE: Parser :=
    OneOf(STR, OneOf(NUMBER, OneOf(CollectionParser(true), OneOf(CollectionParser(false), WORDS))))

  const VALUE: Parser := Then(WHITESPACE, Then(ANY_NODE, WHITESPACE))

  // ---- One rule per combinator ----

  predicate IsLeaf(p: Parser) { p.Char? || p.Text? || p.Range? || p.Codepoint? }

  /** How many bytes a parser without parts takes; nothing if it fails. */
  function LeafTakes(p: Parser, b: bytes): (r: Option<nat>)
    requires IsLeaf(p)
    ensures r.Some? ==> r.value <= |b|
  {
    match p
    case Char(c) => if b != [] && b[0] == c then Some(1) else None
    case Text(s) => if HasPrefix(b, s) then Some(|s|) else None
    case Range(lo, hi) => if b != [] && lo <= b[0] <= hi then Some(1) else None
    case Codepoint => if b != [] && IsPlain(b[0]) then Some(1) else None
  }

  lemma OnLeaf(p: Parser, b: bytes, out: Option<Output>, limit: nat)
    requires IsLeaf(p)
    ensures Parse(p, b, out, limit) ==
            match LeafTakes(p, b) { case None => Done(false, b, out) case Some(n) => Done(true, b[n..], out) }
  {
  }

  lemma OnOneOf(p: Parser, q: Parser, b: bytes, out: Option<Output>, limit: nat)
    ensures var r := Parse(p, b, out, limit);
            Parse(OneOf(p, q), b, out, limit) == if r.Done? && !r.ok then Parse(q, b, r.out, limit) else r
  {
    hide SetResult, AddCount, HasPrefix, CodepointLength;
  }

  lemma OnThen(p: Parser, q: Parser, b: bytes, out: Option<Output>, limit: nat)
    ensures var r := Parse(p, b, out, limit);
            Parse(Then(p, q), b, out, limit) ==
            if r.Diverges? then r
            else if !r.ok then Done(false, b, r.out)
            else
              var r2 := Parse(q, r.buf, r.out, limit);
              if r2.Done? && !r2.ok then Done(false, b, r2.out) else r2
  {
    hide SetResult, AddCount, HasPrefix, CodepointLength;
  }

  lemma OnMany(p: Parser, b: bytes, out: Option<Output>, limit: nat)
    ensures var r := Parse(p, b, out, limit);
            Parse(Many(p), b, out, limit) ==
            if r.Diverges? then r
            else if !r.ok then Done(true, b, r.out)
            else if |r.buf| < |b| then Parse(Many(p), r.buf, r.out, limit)
            else Diverges
  {
    hide SetResult, AddCount, HasPrefix, CodepointLength;
  }

  lemma OnMaybe(p: Parser, b: bytes, out: Option<Output>, limit: nat)
    ensures var r := Parse(p, b, out, limit);
            Parse(Maybe(p), b, out, limit) == if r.Diverges? then r else Done(true, r.buf, r.out)
  {
    hide SetResult, AddCount, HasPrefix, CodepointLength;
  }

  lemma OnNested(p: Parser, b: bytes, out: Option<Output>, limit: nat)
    ensures var r := Parse(p, b, None, limit);
            Parse(Nested(p), b, out, limit) == if r.Diverges? then r else Done(r.ok, r.buf, out)
  {
    hide SetResult, AddCount, HasPrefix, CodepointLength;
  }

  lemma OnResultVal(ty: JsonType, p: Parser, b: bytes, out: Option<Output>, limit: nat)
    ensures var r := Parse(p, b, out, limit);
            Parse(ResultVal(ty, p), b, out, limit) ==
            if r.Diverges? || !r.ok then r else Done(true, r.buf, SetResult(r.out, ty, b[..|b| - |r.buf|], |r.buf|))
  {
    hide SetResult, AddCount, HasPrefix, CodepointLength;
  }

  lemma OnCount(p: Parser, b: bytes, out: Option<Output>, limit: nat)
    ensures var r := Parse(p, b, out, limit);
            Parse(Count(p), b, out, limit) ==
            if r.Diverges? || !r.ok then r else Done(true, r.buf, AddCount(r.out, 1))
  {
    hide SetResult, AddCount, HasPrefix, CodepointLength;
  }

  lemma OnValue(b: bytes, out: Option<Output>, limit: nat)
    ensures Parse(Value, b, out, limit) == if |b| < limit then Parse(VALUE, b, out, |b|) else Diverges
  {
    hide SetResult, AddCount, HasPrefix, CodepointLength;
  }

  // ---- The contract of every parser ----

  lemma SuffixTransitive(a: bytes, b: bytes, c: bytes)
    requires HasSuffix(a, b) && HasSuffix(b, c)
    ensures HasSuffix(a, c)
  {
    assert a[|a| - |c|..] == a[|a| - |b|..][|b| - |c|..];
  }

  /** Whatever the parser, a call that returns either fails and leaves the buffer as it was or succeeds and
      leaves a suffix of it. */
  lemma {:induction false} ParseTakesPrefix(p: Parser, b: bytes, out: Option<Output>, limit: nat)
    ensures var r := Parse(p, b, out, limit);
            r.Done? ==> HasSuffix(b, r.buf) && (!r.ok ==> r.buf == b)
    decreases limit, p, |b|
  {
    hide Parse, LeafTakes, SetResult, AddCount;
    match p
    case OneOf(p1, p2) =>
      OnOneOf(p1, p2, b, out, limit);
      ParseTakesPrefix(p1, b, out, limit);
      var r := Parse(p1, b, out, limit);
      if r.Done? { ParseTakesPrefix(p2, b, r.out, limit); }
    case Then(p1, p2) =>
      OnThen(p1, p2, b, out, limit);
      ParseTakesPrefix(p1, b, out, limit);
      var r := Parse(p1, b, out, limit);
      if r.Done? {
        ParseTakesPrefix(p2, r.buf, r.out, limit);
        var r2 := Parse(p2, r.buf, r.out, limit);
        if r2.Done? { SuffixTransitive(b, r.buf, r2.buf); }
      }
    case Many(p1) =>
      OnMany(p1, b, out, limit);
      ParseTakesPrefix(p1, b, out, limit);
      var r := Parse(p1, b, out, limit);
      if r.Done? && |r.buf| < |b| {
        ParseTakesPrefix(p, r.buf, r.out, limit);
        var r2 := Parse(p, r.buf, r.out, limit);
        if r2.Done? { SuffixTransitive(b, r.buf, r2.buf); }
      }
    case Maybe(p1) => OnMaybe(p1, b, out, limit); ParseTakesPrefix(p1, b, out, limit);
    case Nested(p1) => OnNested(p1, b, out, limit); ParseTakesPrefix(p1, b, None, limit);
    case ResultVal(ty, p1) => OnResultVal(ty, p1, b, out, limit); ParseTakesPrefix(p1, b, out, limit);
    case Count(p1) => OnCount(p1, b, out, limit); ParseTakesPrefix(p1, b, out, limit);
    case Value => OnValue(b, out, limit); if |b| < limit { ParseTakesPrefix(VALUE, b, out, |b|); }
    case _ => OnLeaf(p, b, out, limit);
  }

  // ---- Terminals ----

  /** The outcome of taking `n` bytes, or of failing when `n` is zero. */
  function Take(n: nat, b: bytes, out: Option<Output>): Outcome
    requires n <= |b|
  {
    if n == 0 then Done(false, b, out) else Done(true, b[n..], out)
  }

  function ClassLength(cls: byte -> bool, b: bytes): (n: nat)
    ensures n <= |b|
  {
    if b != [] && cls(b[0]) then 1 else 0
  }

  lemma EitherClass(p: Parser, q: Parser, f: byte -> bool, g: byte -> bool, h: byte -> bool,
                    b: bytes, out: Option<Output>, limit: nat)
    requires Parse(p, b, out, limit) == Take(ClassLength(f, b), b, out)
    requires Parse(q, b, out, limit) == Take(ClassLength(g, b), b, out)
    requires b != [] ==> (h(b[0]) <==> f(b[0]) || g(b[0]))
    ensures Parse(OneOf(p, q), b, out, limit) == Take(ClassLength(h, b), b, out)
  {
    hide Parse;
    OnOneOf(p, q, b, out, limit);
  }

  lemma OnChar(c: byte, b: bytes, out: Option<Output>, limit: nat)
    ensures Parse(Char(c), b, out, limit) == Take(ClassLength(x => x == c, b), b, out)
  {
    hide Parse;
    OnLeaf(Char(c), b, out, limit);
  }

  lemma OnWsChar(b: bytes, out: Option<Output>, limit: nat)
    ensures Parse(WS_CHAR, b, out, limit) == Take(ClassLength(IsWs, b), b, out)
  {
    hide Parse, Take, ClassLength;
    OnChar(32, b, out, limit);
    OnChar(10, b, out, limit);
    OnChar(13, b, out, limit);
    OnChar(9, b, out, limit);
    EitherClass(Char(13), Char(9), x => x == 13, x => x == 9, x => x == 13 || x == 9, b, out, limit);
    EitherClass(Char(10), OneOf(Char(13), Char(9)), x => x == 10, x => x == 13 || x == 9,
                x => x == 10 || x == 13 || x == 9, b, out, limit);
    EitherClass(Char(32), OneOf(Char(10), OneOf(Char(13), Char(9))), x => x == 32,
                x => x == 10 || x == 13 || x == 9, IsWs, b, out, limit);
  }

  lemma OnRange(lo: byte, hi: byte, b: bytes, out: Option<Output>, limit: nat)
    ensures Parse(Range(lo, hi), b, out, limit) == Take(ClassLength(x => lo <= x <= hi, b), b, out)
  {
    hide Parse;
    OnLeaf(Range(lo, hi), b, out, limit);
  }

  lemma OnDigit(b: bytes, out: Option<Output>, limit: nat)
    ensures Parse(DIGIT, b, out, limit) == Take(ClassLength(IsDigit, b), b, out)
  {
    hide Parse;
    OnLeaf(DIGIT, b, out, limit);
  }

  lemma OnHexDigit(b: bytes, out: Option<Output>, limit: nat)
    ensures Parse(HEX_DIGIT, b, out, limit) == Take(ClassLength(IsHex, b), b, out)
  {
    hide Parse, Take, ClassLength;
    OnDigit(b, out, limit);
    OnRange(65, 70, b, out, limit);
    OnRange(97, 102, b, out, limit);
    EitherClass(Range(65, 70), Range(97, 102), x => 65 <= x <= 70, x => 97 <= x <= 102,
                x => 65 <= x <= 70 || 97 <= x <= 102, b, out, limit);
    EitherClass(DIGIT, OneOf(Range(65, 70), Range(97, 102)), IsDigit, x => 65 <= x <= 70 || 97 <= x <= 102,
                IsHex, b, out, limit);
  }

  lemma {:induction false} OnWhitespace(b: bytes, out: Option<Output>, limit: nat)
    ensures Parse(WHITESPACE, b, out, limit) == Done(true, b[Span(IsWs, b)..], out)
    decreases |b|
  {
    hide Parse;
    OnMany(WS_CHAR, b, out, limit);
    OnWsChar(b, out, limit);
    if b != [] && IsWs(b[0]) {
      OnWhitespace(b[1..], out, limit);
      assert b[1..][Span(IsWs, b[1..])..] == b[Span(IsWs, b)..];
    }
  }

  lemma {:induction false} OnDigits(b: bytes, out: Option<Output>, limit: nat)
    ensures Parse(Many(DIGIT), b, out, limit) == Done(true, b[Span(IsDigit, b)..], out)
    decreases |b|
  {
    hide Parse;
    OnMany(DIGIT, b, out, limit);
    OnDigit(b, out, limit);
    if b != [] && IsDigit(b[0]) {
      OnDigits(b[1..], out, limit);
      assert b[1..][Span(IsDigit, b[1..])..] == b[Span(IsDigit, b)..];
    }
  }

  lemma OnThenTake(p: Parser, q: Parser, n: nat, m: nat, b: bytes, out: Option<Output>, limit: nat)
    requires n <= |b| && m <= |b| - n
    requires Parse(p, b, out, limit) == Take(n, b, out)
    requires n > 0 ==> Parse(q, b[n..], out, limit) == Take(m, b[n..], out)
    ensures Parse(Then(p, q), b, out, limit) == Take(if n == 0 || m == 0 then 0 else n + m, b, out)
  {
    hide Parse;
    OnThen(p, q, b, out, limit);
    if n > 0 { assert b[n..][m..] == b[n + m..]; }
  }

  lemma OnCharOr(c: byte, q: Parser, b: bytes, out: Option<Output>, limit: nat)
    ensures Parse(OneOf(Char(c), q), b, out, limit) ==
            if b != [] && b[0] == c then Take(1, b, out) else Parse(q, b, out, limit)
  {
    hide Parse;
    OnChar(c, b, out, limit);
    OnOneOf(Char(c), q, b, out, limit);
  }

  function HexRun(k: nat, b: bytes): (n: nat)
    ensures n <= |b| && (n == 0 || n == k)
  {
    if k == 0 || b == [] || !IsHex(b[0]) then 0
    else if k == 1 then 1
    else if HexRun(k - 1, b[1..]) == 0 then 0 else k
  }

  function HexDigits(k: nat): Parser
    requires k > 0
  {
    if k == 1 then HEX_DIGIT else Then(HEX_DIGIT, HexDigits(k - 1))
  }

  lemma {:induction false} OnHexDigits(k: nat, b: bytes, out: Option<Output>, limit: nat)
    requires k > 0
    ensures Parse(HexDigits(k), b, out, limit) == Take(HexRun(k, b), b, out)
    decreases k
  {
    hide Parse;
    OnHexDigit(b, out, limit);
    if k > 1 && b != [] && IsHex(b[0]) {
      OnHexDigits(k - 1, b[1..], out, limit);
      OnThenTake(HEX_DIGIT, HexDigits(k - 1), 1, HexRun(k - 1, b[1..]), b, out, limit);
    } else if k > 1 {
      OnThenTake(HEX_DIGIT, HexDigits(k - 1), 0, 0, b, out, limit);
    }
  }

  lemma OnUnicodeEscape(b: bytes, out: Option<Output>, limit: nat)
    ensures Parse(UNICODE_ESCAPE, b, out, limit) ==
            Take(if b != [] && b[0] == LOWER_U && HexRun(4, b[1..]) > 0 then 5 else 0, b, out)
  {
    hide Parse, HexRun;
    OnChar(LOWER_U, b, out, limit);
    assert UNICODE_ESCAPE == Then(Char(LOWER_U), HexDigits(4)) by {
      assert HexDigits(2) == Then(HEX_DIGIT, HEX_DIGIT) && HexDigits(3) == Then(HEX_DIGIT, HexDigits(2));
    }
    if b != [] && b[0] == LOWER_U {
      OnHexDigits(4, b[1..], out, limit);
      OnThenTake(Char(LOWER_U), HexDigits(4), 1, HexRun(4, b[1..]), b, out, limit);
    } else {
      OnThenTake(Char(LOWER_U), HexDigits(4), 0, 0, b, out, limit);
    }
  }

  /** The part of an escape after the backslash. */
  function EscapedLength(b: bytes): (n: nat)
    ensures n <= |b|
  {
    if b == [] then 0
    else if IsSimpleEscape(b[0]) then 1
    else if b[0] == LOWER_U && HexRun(4, b[1..]) > 0 then 5
    else 0
  }

  lemma OnEscaped(b: bytes, out: Option<Output>, limit: nat)
    ensures Parse(ESCAPED, b, out, limit) == Take(EscapedLength(b), b, out)
  {
    hide Parse, HexRun;
    var t := OneOf(Char(116), UNICODE_ESCAPE);
    var r, n, f := OneOf(Char(114), t), OneOf(Char(110), OneOf(Char(114), t)), OneOf(Char(102), OneOf(Char(110), OneOf(Char(114), t)));
    OnUnicodeEscape(b, out, limit);
    OnCharOr(116, UNICODE_ESCAPE, b, out, limit);
    OnCharOr(114, t, b, out, limit);
    OnCharOr(110, r, b, out, limit);
    OnCharOr(102, n, b, out, limit);
    OnCharOr(98, f, b, out, limit);
    OnCharOr(47, SIMPLE_ESCAPE, b, out, limit);
    OnCharOr(BACKSLASH, OneOf(Char(47), SIMPLE_ESCAPE), b, out, limit);
    OnCharOr(QUOTE, OneOf(Char(BACKSLASH), OneOf(Char(47), SIMPLE_ESCAPE)), b, out, limit);
  }

  lemma EscapeLengths(b: bytes)
    ensures UnitLength(b) ==
            if b == [] then 0
            else if IsPlain(b[0]) then 1
            else if b[0] == BACKSLASH && EscapedLength(b[1..]) > 0 then 1 + EscapedLength(b[1..])
            else 0
  {
    if b != [] && b[0] == BACKSLASH {
      var c := b[1..];
      if |c| >= 1 && c[0] == LOWER_U {
        HexRunFour(c[1..]);
        if |b| >= 6 { assert c[1..][0] == b[2] && c[1..][1] == b[3] && c[1..][2] == b[4] && c[1..][3] == b[5]; }
      }
    }
  }

  lemma HexRunFour(b: bytes)
    ensures HexRun(4, b) > 0 <==> |b| >= 4 && IsHex(b[0]) && IsHex(b[1]) && IsHex(b[2]) && IsHex(b[3])
  {
    if |b| >= 1 {
      var c := b[1..];
      if |c| >= 1 {
        var d := c[1..];
        assert HexRun(2, d) > 0 <==> |d| >= 2 && IsHex(d[0]) && IsHex(d[1]) by {
          if |d| >= 1 { assert HexRun(1, d[1..]) > 0 <==> |d[1..]| >= 1 && IsHex(d[1..][0]); }
        }
        assert HexRun(3, c) > 0 <==> IsHex(c[0]) && HexRun(2, d) > 0;
      }
      assert HexRun(4, b) > 0 <==> IsHex(b[0]) && HexRun(3, c) > 0;
    }
  }

  lemma OnStrUnit(b: bytes, out: Option<Output>, limit: nat)
    ensures Parse(STR_UNIT, b, out, limit) == Take(UnitLength(b), b, out)
  {
    hide Parse, UnitLength, EscapedLength;
    EscapeLengths(b);
    OnOneOf(Codepoint, STR_ESCAPE, b, out, limit);
    OnLeaf(Codepoint, b, out, limit);
    OnChar(BACKSLASH, b, out, limit);
    if b != [] && b[0] == BACKSLASH {
      OnEscaped(b[1..], out, limit);
      OnThenTake(Char(BACKSLASH), ESCAPED, 1, EscapedLength(b[1..]), b, out, limit);
    } else {
      OnThenTake(Char(BACKSLASH), ESCAPED, 0, 0, b, out, limit);
    }
  }

  lemma {:induction false} OnStrBody(b: bytes, out: Option<Output>, limit: nat)
    ensures Parse(STR_BODY, b, out, limit) == Done(true, b[BodyLength(b)..], out)
    decreases |b|
  {
    hide Parse, UnitLength;
    OnMany(STR_UNIT, b, out, limit);
    OnStrUnit(b, out, limit);
    var u := UnitLength(b);
    if u > 0 {
      OnStrBody(b[u..], out, limit);
      assert b[u..][BodyLength(b[u..])..] == b[BodyLength(b)..];
    }
  }

  // ---- Strings, numbers and words ----

  predicate Fails(r: Outcome, b: bytes) { r.Done? && !r.ok && r.buf == b }

  lemma OnStr(b: bytes, out: Option<Output>, limit: nat)
    ensures var r := Parse(STR, b, out, limit);
            match ReadStr(b)
            case None => Fails(r, b) && (b == [] || b[0] != QUOTE ==> r.out == out)
            case Some((body, rest)) => r == Done(true, rest, SetResult(out, StrType, body, |rest| + 1))
  {
    hide Parse, BodyLength;
    var tail := Then(ResultVal(StrType, STR_BODY), Char(QUOTE));
    OnThen(Char(QUOTE), tail, b, out, limit);
    OnChar(QUOTE, b, out, limit);
    if b != [] && b[0] == QUOTE {
      var c := b[1..];
      OnThen(ResultVal(StrType, STR_BODY), Char(QUOTE), c, out, limit);
      OnResultVal(StrType, STR_BODY, c, out, limit);
      OnStrBody(c, out, limit);
      OnChar(QUOTE, c[BodyLength(c)..], SetResult(out, StrType, c[..BodyLength(c)], |c| - BodyLength(c)), limit);
    }
  }

  lemma OnWhole(b: bytes, out: Option<Output>, limit: nat)
    ensures Parse(WHOLE_PART, b, out, limit) ==
            match ReadInt(b) { case None => Done(false, b, out) case Some((_, rest)) => Done(true, rest, out) }
  {
    hide Parse;
    var more := Then(Range(49, 57), Many(DIGIT));
    OnCharOr(ZERO, more, b, out, limit);
    OnThen(Range(49, 57), Many(DIGIT), b, out, limit);
    OnRange(49, 57, b, out, limit);
    if b != [] && 49 <= b[0] <= 57 {
      OnDigits(b[1..], out, limit);
      assert b[1..][Span(IsDigit, b[1..])..] == b[Span(IsDigit, b)..];
    }
  }

  /** The buffer after an optional minus sign. */
  function Unsigned(b: bytes): bytes { if b != [] && b[0] == MINUS then b[1..] else b }

  lemma OnIntPart(b: bytes, out: Option<Output>, limit: nat)
    ensures Parse(INT_PART, b, out, limit) ==
            match ReadInt(Unsigned(b)) { case None => Done(false, b, out) case Some((_, rest)) => Done(true, rest, out) }
  {
    hide Parse, ReadInt;
    OnThen(Maybe(Char(MINUS)), WHOLE_PART, b, out, limit);
    OnMaybe(Char(MINUS), b, out, limit);
    OnChar(MINUS, b, out, limit);
    OnWhole(Unsigned(b), out, limit);
  }

  lemma OnFracPart(b: bytes, out: Option<Output>, limit: nat)
    ensures Parse(FRAC_PART, b, out, limit) == Done(ReadFrac(b).0.Some?, ReadFrac(b).1, out)
  {
    hide Parse, Span;
    OnThen(Char(DOT), Many(DIGIT), b, out, limit);
    OnChar(DOT, b, out, limit);
    if b != [] && b[0] == DOT { OnDigits(b[1..], out, limit); }
  }

  lemma OnSomeDigits(b: bytes, out: Option<Output>, limit: nat)
    ensures Parse(Then(DIGIT, Many(DIGIT)), b, out, limit) == Take(Span(IsDigit, b), b, out)
  {
    hide Parse;
    OnThen(DIGIT, Many(DIGIT), b, out, limit);
    OnDigit(b, out, limit);
    if b != [] && IsDigit(b[0]) {
      OnDigits(b[1..], out, limit);
      assert b[1..][Span(IsDigit, b[1..])..] == b[Span(IsDigit, b)..];
    }
  }

  lemma OnSign(b: bytes, out: Option<Output>, limit: nat)
    ensures Parse(SIGN, b, out, limit) == Done(true, b[if b != [] && IsSign(b[0]) then 1 else 0..], out)
  {
    hide Parse;
    OnMaybe(OneOf(Char(PLUS), Char(MINUS)), b, out, limit);
    OnCharOr(PLUS, Char(MINUS), b, out, limit);
    OnChar(MINUS, b, out, limit);
  }

  lemma OnExponent(b: bytes, out: Option<Output>, limit: nat)
    ensures Parse(EXPONENT, b, out, limit) == Done(ReadExp(b).0.Some?, ReadExp(b).1, out)
  {
    hide Parse, Span;
    var digits := Then(DIGIT, Many(DIGIT));
    OnThen(OneOf(Char(101), Char(69)), Then(SIGN, digits), b, out, limit);
    OnCharOr(101, Char(69), b, out, limit);
    OnChar(69, b, out, limit);
    if b != [] && IsExp(b[0]) {
      var c := b[1..];
      var k := if c != [] && IsSign(c[0]) then 1 else 0;
      OnThen(SIGN, digits, c, out, limit);
      OnSign(c, out, limit);
      assert c[k..] == b[k + 1..];
      OnSomeDigits(b[k + 1..], out, limit);
    }
  }

  lemma OnNumber(b: bytes, out: Option<Output>, limit: nat)
    ensures Parse(NUMBER, b, out, limit) ==
            match ReadNumber(b)
            case None => Done(false, b, out)
            case Some((n, rest)) => Done(true, rest, SetResult(out, NumberType, NumberText(n), |rest|))
  {
    hide Parse, ReadInt, ReadFrac, ReadExp, NumberText;
    var tail := Then(Maybe(FRAC_PART), Maybe(EXPONENT));
    OnResultVal(NumberType, Then(INT_PART, tail), b, out, limit);
    OnThen(INT_PART, tail, b, out, limit);
    OnIntPart(b, out, limit);
    if ReadNumber(b).Some? {
      var b1 := ReadInt(Unsigned(b)).value.1;
      OnThen(Maybe(FRAC_PART), Maybe(EXPONENT), b1, out, limit);
      OnMaybe(FRAC_PART, b1, out, limit);
      OnFracPart(b1, out, limit);
      var b2 := ReadFrac(b1).1;
      OnMaybe(EXPONENT, b2, out, limit);
      OnExponent(b2, out, limit);
      ReadNumberSound(b);
      var (n, rest) := ReadNumber(b).value;
      assert b[..|b| - |rest|] == NumberText(n);
    }
  }

  function WordType(w: Word): JsonType {
    match w case TrueWord => TrueType case FalseWord => FalseType case NullWord => NullType
  }

  lemma OnText(ty: JsonType, s: bytes, b: bytes, out: Option<Output>, limit: nat)
    ensures Parse(ResultVal(ty, Text(s)), b, out, limit) ==
            if HasPrefix(b, s) then Done(true, b[|s|..], SetResult(out, ty, s, |b| - |s|)) else Done(false, b, out)
  {
    hide Parse;
    OnResultVal(ty, Text(s), b, out, limit);
    OnLeaf(Text(s), b, out, limit);
  }

  lemma OnWords(b: bytes, out: Option<Output>, limit: nat)
    ensures Parse(WORDS, b, out, limit) ==
            match ReadWord(b)
            case None => Done(false, b, out)
            case Some((w, rest)) => Done(true, rest, SetResult(out, WordType(w), WordText(w), |rest|))
  {
    hide Parse, HasPrefix;
    var f, n := ResultVal(FalseType, Text(FALSE_TEXT)), ResultVal(NullType, Text(NULL_TEXT));
    OnOneOf(ResultVal(TrueType, Text(TRUE_TEXT)), OneOf(f, n), b, out, limit);
    OnOneOf(f, n, b, out, limit);
    OnText(TrueType, TRUE_TEXT, b, out, limit);
    OnText(FalseType, FALSE_TEXT, b, out, limit);
    OnText(NullType, NULL_TEXT, b, out, limit);
  }

  // ---- Values ----

  /** The output record after a value with `after` bytes behind it has been recognised. */
  function Described(out: Option<Output>, n: Node, after: nat): Option<Output> {
    match n
    case StrNode(body) => SetResult(out, StrType, body, after + 1)
    case NumNode(num) => SetResult(out, NumberType, NumberText(num), after)
    case WordNode(w) => SetResult(out, WordType(w), WordText(w), after)
    case CollNode(isMap, _, es) =>
      SetResult(AddCount(out, |es|), CollectionType(isMap), EntriesText(isMap, es), after + 1)
  }

  /** The outcome that a recognised entry must have: nested values leave the record alone. */
  ghost predicate EntryOutcome(r: Outcome, read: Option<(Entry, bytes)>, b: bytes, out: Option<Output>) {
    match read case None => r == Done(false, b, out) case Some((_, rest)) => r == Done(true, rest, out)
  }

  lemma {:induction false} OnEntry(isMap: bool, b: bytes, out: Option<Output>, limit: nat)
    requires |b| < limit && (isMap ==> StopsAt(IsWs, b))
    ensures EntryOutcome(Parse(EntryParser(isMap), b, out, limit), ReadEntry(isMap, b), b, out)
    decreases |b|, 2
  {
    hide Parse, ReadStr, ReadTree, Span;
    if isMap {
      OnMember(b, out, limit);
    } else {
      OnNested(Value, b, out, limit);
      OnValue(b, None, limit);
      OnTree(b, None);
    }
  }

  lemma {:induction false} OnMember(b: bytes, out: Option<Output>, limit: nat)
    requires |b| < limit && StopsAt(IsWs, b)
    ensures EntryOutcome(Parse(OBJECT_KV, b, out, limit), ReadEntry(true, b), b, out)
    decreases |b|, 1, 1
  {
    hide Parse, ReadStr, ReadTree, Span;
    var colon := Then(Char(COLON), Value);
    OnNested(Then(STR, Then(WHITESPACE, colon)), b, out, limit);
    OnThen(STR, Then(WHITESPACE, colon), b, None, limit);
    OnStr(b, None, limit);
    assert Span(IsWs, b) == 0 && b[0..] == b;
    if ReadStr(b).Some? {
      var r := ReadStr(b).value.1;
      OnThen(WHITESPACE, colon, r, None, limit);
      OnWhitespace(r, None, limit);
      var c := r[Span(IsWs, r)..];
      OnThen(Char(COLON), Value, c, None, limit);
      OnChar(COLON, c, None, limit);
      if c != [] && c[0] == COLON {
        OnValue(c[1..], None, limit);
        OnTree(c[1..], None);
        assert c[1..] == r[Span(IsWs, r) + 1..];
      }
    }
  }

  ghost predicate EntriesOutcome(r: Outcome, isMap: bool, b: bytes, out: Option<Output>) {
    match ReadEntries(isMap, b)
    case None => Fails(r, b) && (ReadEntry(isMap, b).None? ==> r.out == out)
    case Some((es, rest)) => r == Done(true, rest, AddCount(out, |es|))
  }

  /** One more round of a repetition that is followed by another parser. */
  lemma OnManyThen(p: Parser, q: Parser, b: bytes, out: Option<Output>, limit: nat, b1: bytes, out1: Option<Output>)
    requires Parse(p, b, out, limit) == Done(true, b1, out1) && |b1| < |b|
    ensures var r := Parse(Then(Many(p), q), b1, out1, limit);
            Parse(Then(Many(p), q), b, out, limit) == if r.Done? && !r.ok then Done(false, b, r.out) else r
  {
    hide Parse;
    OnMany(p, b, out, limit);
    OnThen(Many(p), q, b, out, limit);
    OnThen(Many(p), q, b1, out1, limit);
  }

  lemma OnSeparator(isMap: bool, b: bytes, out: Option<Output>, limit: nat)
    ensures Parse(Separator(isMap), b, out, limit) ==
            if b != [] && b[0] == COMMA then Done(true, AfterComma(isMap, b), out) else Done(false, b, out)
  {
    hide Parse, Span;
    OnChar(COMMA, b, out, limit);
    if isMap {
      OnThen(Char(COMMA), WHITESPACE, b, out, limit);
      if b != [] && b[0] == COMMA { OnWhitespace(b[1..], out, limit); }
    }
  }

  function AfterComma(isMap: bool, b: bytes): (r: bytes)
    requires b != []
    ensures |r| < |b|
  {
    if isMap then b[1..][Span(IsWs, b[1..])..] else b[1..]
  }

  /** White space between a comma and a key belongs to the entry in the tree and to the separator in the
      grammar. */
  lemma LeadMoves(isMap: bool, b: bytes)
    requires b != []
    ensures var c := AfterComma(isMap, b);
            && (isMap ==> StopsAt(IsWs, c))
            && (ReadEntries(isMap, c).None? <==> ReadEntries(isMap, b[1..]).None?)
            && (ReadEntries(isMap, c).Some? ==>
                  var (es, rest), (es', rest') := ReadEntries(isMap, c).value, ReadEntries(isMap, b[1..]).value;
                  |es| == |es'| && rest == rest')
  {
    hide ReadKey, ReadTree;
    if isMap {
      var c := AfterComma(isMap, b);
      assert Span(IsWs, c) == 0 && c[0..] == c;
      assert ReadEntry(true, c).None? <==> ReadEntry(true, b[1..]).None?;
      if ReadEntry(true, c).Some? {
        assert ReadEntry(true, c).value.1 == ReadEntry(true, b[1..]).value.1;
      }
    }
  }

  lemma {:induction false} OnEntries(isMap: bool, b: bytes, out: Option<Output>, limit: nat)
    requires |b| < limit && (isMap ==> StopsAt(IsWs, b))
    ensures EntriesOutcome(Parse(EntriesParser(isMap), b, out, limit), isMap, b, out)
    decreases |b|, 3
  {
    hide Parse, ReadEntry, EntryParser, Separator, AfterComma, StopsAt;
    var item := Then(EntryParser(isMap), Separator(isMap));
    OnCount(item, b, out, limit);
    OnThen(EntryParser(isMap), Separator(isMap), b, out, limit);
    OnEntry(isMap, b, out, limit);
    var rest := if ReadEntry(isMap, b).Some? then ReadEntry(isMap, b).value.1 else b;
    OnSeparator(isMap, rest, out, limit);
    if ReadEntry(isMap, b).Some? && rest != [] && rest[0] == COMMA {
      var b1, out1 := AfterComma(isMap, rest), AddCount(out, 1);
      LeadMoves(isMap, rest);
      OnManyThen(Count(item), Count(EntryParser(isMap)), b, out, limit, b1, out1);
      OnEntries(isMap, b1, out1, limit);
    } else {
      OnThen(Many(Count(item)), Count(EntryParser(isMap)), b, out, limit);
      OnMany(Count(item), b, out, limit);
      OnCount(EntryParser(isMap), b, out, limit);
    }
  }

  function ContentParser(isMap: bool): Parser { ResultVal(CollectionType(isMap), Maybe(EntriesParser(isMap))) }

  /** What stands between the brackets: always matched, possibly as nothing. */
  lemma {:induction false} OnContent(isMap: bool, b: bytes, out: Option<Output>, limit: nat)
    requires |b| < limit && StopsAt(IsWs, b)
    ensures var r := Parse(ContentParser(isMap), b, out, limit);
            match ReadEntries(isMap, b)
            case None =>
              && r.Done? && r.ok && r.buf == b
              && (ReadEntry(isMap, b).None? ==> r.out == SetResult(AddCount(out, 0), CollectionType(isMap), [], |b|))
            case Some((es, rest)) =>
              r == Done(true, rest, SetResult(AddCount(out, |es|), CollectionType(isMap), EntriesText(isMap, es), |rest|))
    decreases |b|, 4
  {
    hide Parse, ReadEntries, ReadEntry, EntriesParser, EntriesText, EntriesOk, SetResult, AddCount;
    OnResultVal(CollectionType(isMap), Maybe(EntriesParser(isMap)), b, out, limit);
    OnMaybe(EntriesParser(isMap), b, out, limit);
    OnEntries(isMap, b, out, limit);
    NothingCounted(out);
    if ReadEntries(isMap, b).Some? {
      ReadEntriesSound(isMap, b);
      var (es, rest) := ReadEntries(isMap, b).value;
      assert b[..|b| - |rest|] == EntriesText(isMap, es);
    }
  }

  lemma NothingCounted(out: Option<Output>)
    ensures AddCount(out, 0) == out
  {
  }

  ghost predicate NodeOutcome(r: Outcome, b: bytes, out: Option<Output>) {
    match ReadNode(b)
    case None => Fails(r, b)
    case Some((n, rest)) => r == Done(true, rest, Described(out, n, |rest|))
  }

  ghost predicate ClosedOutcome(r: Outcome, isMap: bool, b: bytes, out: Option<Output>) {
    match ReadClosed(isMap, b)
    case None => Fails(r, b)
    case Some((es, rest)) =>
      r == Done(true, rest, SetResult(AddCount(out, |es|), CollectionType(isMap), EntriesText(isMap, es), |rest| + 1))
  }

  lemma {:induction false} OnClosed(isMap: bool, b: bytes, out: Option<Output>, limit: nat)
    requires |b| < limit && StopsAt(IsWs, b)
    ensures ClosedOutcome(Parse(Then(ContentParser(isMap), Char(Close(isMap))), b, out, limit), isMap, b, out)
    decreases |b|, 5
  {
    hide Parse, ReadEntries, ReadEntry, EntriesText, SetResult, AddCount, ContentParser;
    OnThen(ContentParser(isMap), Char(Close(isMap)), b, out, limit);
    OnContent(isMap, b, out, limit);
    var r := Parse(ContentParser(isMap), b, out, limit);
    OnChar(Close(isMap), r.buf, r.out, limit);
    if ReadEntries(isMap, b).None? && b != [] && b[0] == Close(isMap) {
      NoEntries(isMap);
      NothingAtClose(isMap, b);
    }
  }

  lemma {:induction false} OnCollection(isMap: bool, b: bytes, out: Option<Output>, limit: nat)
    requires |b| <= limit && b != [] && b[0] == Open(isMap)
    ensures NodeOutcome(Parse(CollectionParser(isMap), b, out, limit), b, out)
    decreases |b|, 0, 0
  {
    hide Parse, ReadClosed, EntriesText, ReadStr, ReadNumber, ReadWord, Span, SetResult, AddCount, ContentParser;
    var content, close := ContentParser(isMap), Char(Close(isMap));
    var c := b[1..];
    OpenContent(isMap);
    OnThen(Char(Open(isMap)), Then(WHITESPACE, Then(content, close)), b, out, limit);
    OnChar(Open(isMap), b, out, limit);
    OnThen(WHITESPACE, Then(content, close), c, out, limit);
    OnWhitespace(c, out, limit);
    SpanSplits(IsWs, c);
    OnClosed(isMap, c[Span(IsWs, c)..], out, limit);
  }

  lemma OpenContent(isMap: bool)
    ensures CollectionParser(isMap) ==
            Then(Char(Open(isMap)), Then(WHITESPACE, Then(ContentParser(isMap), Char(Close(isMap)))))
  {
  }

  /** The one alternative whose first byte fits; the words when none does. */
  function Alternative(b: bytes): Parser {
    if b == [] then WORDS
    else if b[0] == QUOTE then STR
    else if b[0] == MINUS || IsDigit(b[0]) then NUMBER
    else if b[0] == Open(true) then CollectionParser(true)
    else if b[0] == Open(false) then CollectionParser(false)
    else WORDS
  }

  /** An alternative that does not fit fails and leaves the output record as it was. */
  ghost predicate Skips(p: Parser, b: bytes, limit: nat) {
    forall out :: Parse(p, b, out, limit) == Done(false, b, out)
  }

  lemma SkipsStr(b: bytes, limit: nat)
    requires b == [] || b[0] != QUOTE
    ensures Skips(STR, b, limit)
  {
    hide Parse;
    forall out ensures Parse(STR, b, out, limit) == Done(false, b, out) { OnStr(b, out, limit); }
  }

  lemma SkipsNumber(b: bytes, limit: nat)
    requires b == [] || !(b[0] == MINUS || IsDigit(b[0]))
    ensures Skips(NUMBER, b, limit)
  {
    hide Parse;
    forall out ensures Parse(NUMBER, b, out, limit) == Done(false, b, out) { OnNumber(b, out, limit); }
  }

  lemma SkipsCollection(isMap: bool, b: bytes, limit: nat)
    requires b == [] || b[0] != Open(isMap)
    ensures Skips(CollectionParser(isMap), b, limit)
  {
    hide Parse, EntriesParser;
    var content := ResultVal(CollectionType(isMap), Maybe(EntriesParser(isMap)));
    forall out
      ensures Parse(CollectionParser(isMap), b, out, limit) == Done(false, b, out)
    {
      OnThen(Char(Open(isMap)), Then(WHITESPACE, Then(content, Char(Close(isMap)))), b, out, limit);
      OnChar(Open(isMap), b, out, limit);
    }
  }

  lemma NoWord(b: bytes)
    requires b == [] || !(b[0] == 116 || b[0] == 102 || b[0] == 110)
    ensures ReadWord(b).None?
  {
    if |b| >= 4 { assert b[..4][0] == b[0]; }
    if |b| >= 5 { assert b[..5][0] == b[0]; }
  }

  lemma SkipsWords(b: bytes, limit: nat)
    requires b == [] || !(b[0] == 116 || b[0] == 102 || b[0] == 110)
    ensures Skips(WORDS, b, limit)
  {
    hide Parse;
    NoWord(b);
    forall out ensures Parse(WORDS, b, out, limit) == Done(false, b, out) { OnWords(b, out, limit); }
  }

  lemma SkipFirst(p: Parser, q: Parser, b: bytes, limit: nat)
    requires Skips(p, b, limit)
    ensures forall out :: Parse(OneOf(p, q), b, out, limit) == Parse(q, b, out, limit)
  {
    hide Parse;
    forall out ensures Parse(OneOf(p, q), b, out, limit) == Parse(q, b, out, limit) { OnOneOf(p, q, b, out, limit); }
  }

  lemma SkipSecond(p: Parser, q: Parser, b: bytes, limit: nat)
    requires Skips(q, b, limit)
    ensures forall out :: Parse(OneOf(p, q), b, out, limit) == Parse(p, b, out, limit)
  {
    hide Parse;
    forall out ensures Parse(OneOf(p, q), b, out, limit) == Parse(p, b, out, limit) { OnOneOf(p, q, b, out, limit); }
  }

  /** Trying the alternatives in order amounts to running the one that the first byte selects. */
  lemma OnAlternatives(b: bytes, out: Option<Output>, limit: nat)
    ensures Parse(ANY_NODE, b, out, limit) == Parse(Alternative(b), b, out, limit)
  {
    hide Parse, CollectionParser;
    var arrays := OneOf(CollectionParser(false), WORDS);
    var colls := OneOf(CollectionParser(true), arrays);
    var numbers := OneOf(NUMBER, colls);
    if b == [] || !(b[0] == 116 || b[0] == 102 || b[0] == 110) {
      SkipsWords(b, limit);
      SkipSecond(CollectionParser(false), WORDS, b, limit);
    }
    if b == [] || b[0] != Open(false) {
      SkipsCollection(false, b, limit);
      SkipFirst(CollectionParser(false), WORDS, b, limit);
    }
    if Skips(arrays, b, limit) { SkipSecond(CollectionParser(true), arrays, b, limit); }
    if b == [] || b[0] != Open(true) {
      SkipsCollection(true, b, limit);
      SkipFirst(CollectionParser(true), arrays, b, limit);
    }
    if Skips(colls, b, limit) { SkipSecond(NUMBER, colls, b, limit); }
    if b == [] || !(b[0] == MINUS || IsDigit(b[0])) {
      SkipsNumber(b, limit);
      SkipFirst(NUMBER, colls, b, limit);
    }
    if Skips(numbers, b, limit) { SkipSecond(STR, numbers, b, limit); }
    if b == [] || b[0] != QUOTE {
      SkipsStr(b, limit);
      SkipFirst(STR, numbers, b, limit);
    }
  }

  lemma {:induction false} OnNode(b: bytes, out: Option<Output>, limit: nat)
    requires |b| <= limit
    ensures NodeOutcome(Parse(ANY_NODE, b, out, limit), b, out)
    decreases |b|, 0, 1
  {
    hide Parse, ReadClosed, ReadStr, ReadNumber, ReadWord, CollectionParser, SetResult, AddCount, NumberText, WordText;
    OnAlternatives(b, out, limit);
    if b == [] {
      NoWord(b);
      OnWords(b, out, limit);
    } else if b[0] == QUOTE {
      OnStr(b, out, limit);
    } else if b[0] == MINUS || IsDigit(b[0]) {
      OnNumber(b, out, limit);
    } else if b[0] == Open(true) {
      OnCollection(true, b, out, limit);
    } else if b[0] == Open(false) {
      OnCollection(false, b, out, limit);
    } else {
      OnWords(b, out, limit);
    }
  }

  /** Running the grammar on a text always returns, accepts what `ReadTree` accepts, stops where it stops, and
      describes the value found. */
  lemma {:induction false} OnTree(b: bytes, out: Option<Output>)
    ensures var r := Parse(VALUE, b, out, |b|);
            match ReadTree(b)
            case None => Fails(r, b)
            case Some((t, rest)) => r == Done(true, rest, Described(out, t.node, |t.post| + |rest|))
    decreases |b|, 1
  {
    hide Parse, ReadNode, Span, Described;
    OnThen(WHITESPACE, Then(ANY_NODE, WHITESPACE), b, out, |b|);
    OnWhitespace(b, out, |b|);
    var c := b[Span(IsWs, b)..];
    OnThen(ANY_NODE, WHITESPACE, c, out, |b|);
    OnNode(c, out, |b|);
    if ReadNode(c).Some? {
      var (n, rest) := ReadNode(c).value;
      OnWhitespace(rest, Described(out, n, |rest|), |b|);
    }
  }
}
