/** Syntax trees of JSON texts. `TreeText` writes a tree out, `ReadTree` recognises one, and the two are
    inverse to each other wherever a value may end. */
module JsonTree {
  import opened Buffer
  import opened JsonSyntax

  datatype Word = TrueWord | FalseWord | NullWord

  /** A value with the white space before and after it. */
  datatype Tree = Tree(pre: bytes, node: Node, post: bytes)

  datatype Node =
    | StrNode(body: bytes)
    | NumNode(n: Number)
    | WordNode(w: Word)
    | CollNode(isMap: bool, inner: bytes, entries: seq<Entry>)

  /** An element of an array (whose first three fields are empty) or a member of an object. */
  datatype Entry = Entry(lead: bytes, key: bytes, keyWs: bytes, val: Tree)

  const TRUE_TEXT: bytes := [116, 114, 117, 101]
  const FALSE_TEXT: bytes := [102, 97, 108, 115, 101]
  const NULL_TEXT: bytes := [110, 117, 108, 108]

  function WordText(w: Word): bytes {
    match w case TrueWord => TRUE_TEXT case FalseWord => FALSE_TEXT case NullWord => NULL_TEXT
  }

  function Open(isMap: bool): byte { if isMap then 123 else 91 }

  function Close(isMap: bool): byte { if isMap then 125 else 93 }

  // ---- The text of a tree ----

  function StrText(body: bytes): bytes { [QUOTE] + body + [QUOTE] }

  function TreeText(t: Tree): bytes
    decreases t
  {
    t.pre + (NodeText(t.node) + t.post)
  }

  function NodeText(n: Node): bytes
    decreases n
  {
    match n
    case StrNode(body) => StrText(body)
    case NumNode(num) => NumberText(num)
    case WordNode(w) => WordText(w)
    case CollNode(isMap, inner, es) => [Open(isMap)] + (inner + (EntriesText(isMap, es) + [Close(isMap)]))
  }

  function KeyText(e: Entry): bytes { e.lead + (StrText(e.key) + (e.keyWs + [COLON])) }

  function EntryText(isMap: bool, e: Entry): bytes
    decreases e
  {
    if isMap then KeyText(e) + TreeText(e.val) else TreeText(e.val)
  }

  function EntriesText(isMap: bool, es: seq<Entry>): bytes
    decreases es
  {
    if es == [] then []
    else if |es| == 1 then EntryText(isMap, es[0])
    else EntryText(isMap, es[0]) + ([COMMA] + EntriesText(isMap, es[1..]))
  }

  // ---- Well-formed trees ----

  ghost predicate TreeOk(t: Tree)
    decreases t
  {
    All(IsWs, t.pre) && All(IsWs, t.post) && NodeOk(t.node)
  }

  ghost predicate NodeOk(n: Node)
    decreases n
  {
    match n
    case StrNode(body) => IsBody(body)
    case NumNode(num) => NumberOk(num)
    case WordNode(_) => true
    case CollNode(isMap, inner, es) =>
      && All(IsWs, inner)
      && (es != [] ==> if isMap then es[0].lead == [] else es[0].val.pre == [])
      && EntriesOk(isMap, es)
  }

  ghost predicate EntryOk(isMap: bool, e: Entry)
    decreases e
  {
    && (if isMap then All(IsWs, e.lead) && IsBody(e.key) && All(IsWs, e.keyWs) else e.lead == e.key == e.keyWs == [])
    && TreeOk(e.val)
  }

  ghost predicate EntriesOk(isMap: bool, es: seq<Entry>)
    decreases es
  {
    es != [] ==> EntryOk(isMap, es[0]) && EntriesOk(isMap, es[1..])
  }

  // ---- The recogniser ----

  function ReadStr(b: bytes): (r: Option<(bytes, bytes)>)
    ensures r.Some? ==> |r.value.1| < |b|
  {
    if b == [] || b[0] != QUOTE then None
    else
      var n := BodyLength(b[1..]);
      if n < |b[1..]| && b[1..][n] == QUOTE then Some((b[1..][..n], b[1..][n + 1..])) else None
  }

  function ReadWord(b: bytes): (r: Option<(Word, bytes)>)
    ensures r.Some? ==> |r.value.1| < |b|
  {
    if HasPrefix(b, TRUE_TEXT) then Some((TrueWord, b[4..]))
    else if HasPrefix(b, FALSE_TEXT) then Some((FalseWord, b[5..]))
    else if HasPrefix(b, NULL_TEXT) then Some((NullWord, b[4..]))
    else None
  }

  function ReadTree(b: bytes): (r: Option<(Tree, bytes)>)
    ensures r.Some? ==> |r.value.1| < |b|
    decreases |b|, 1
  {
    var n := Span(IsWs, b);
    match ReadNode(b[n..])
    case None => None
    case Some((node, rest)) =>
      var k := Span(IsWs, rest);
      Some((Tree(b[..n], node, rest[..k]), rest[k..]))
  }

  function ReadNode(b: bytes): (r: Option<(Node, bytes)>)
    ensures r.Some? ==> |r.value.1| < |b|
    decreases |b|, 0
  {
    if b == [] then None
    else if b[0] == QUOTE then
      match ReadStr(b) case None => None case Some((body, rest)) => Some((StrNode(body), rest))
    else if b[0] == MINUS || IsDigit(b[0]) then
      match ReadNumber(b) case None => None case Some((n, rest)) => Some((NumNode(n), rest))
    else if b[0] == Open(true) || b[0] == Open(false) then
      var isMap := b[0] == Open(true);
      var n := Span(IsWs, b[1..]);
      var inner, b1 := b[1..][..n], b[1..][n..];
      match ReadClosed(isMap, b1) case None => None case Some((es, rest)) => Some((CollNode(isMap, inner, es), rest))
    else
      match ReadWord(b) case None => None case Some((w, rest)) => Some((WordNode(w), rest))
  }

  /** The entries up to and including the closing bracket. */
  function ReadClosed(isMap: bool, b: bytes): (r: Option<(seq<Entry>, bytes)>)
    ensures r.Some? ==> |r.value.1| < |b|
    decreases |b|, 4
  {
    match ReadEntries(isMap, b)
    case None => if b != [] && b[0] == Close(isMap) then Some(([], b[1..])) else None
    case Some((es, rest)) => if rest != [] && rest[0] == Close(isMap) then Some((es, rest[1..])) else None
  }

  function ReadKey(b: bytes): (r: Option<(bytes, bytes, bytes)>)
    ensures r.Some? ==> |r.value.2| < |b|
  {
    match ReadStr(b)
    case None => None
    case Some((key, rest)) =>
      var k := Span(IsWs, rest);
      if k < |rest| && rest[k] == COLON then Some((key, rest[..k], rest[k + 1..])) else None
  }

  function ReadEntry(isMap: bool, b: bytes): (r: Option<(Entry, bytes)>)
    ensures r.Some? ==> |r.value.1| < |b|
    decreases |b|, 2
  {
    if isMap then
      var n := Span(IsWs, b);
      match ReadKey(b[n..])
      case None => None
      case Some((key, keyWs, b1)) =>
        match ReadTree(b1)
        case None => None
        case Some((val, rest)) => Some((Entry(b[..n], key, keyWs, val), rest))
    else
      match ReadTree(b) case None => None case Some((val, rest)) => Some((Entry([], [], [], val), rest))
  }

  function ReadEntries(isMap: bool, b: bytes): (r: Option<(seq<Entry>, bytes)>)
    ensures r.Some? ==> |r.value.1| < |b| && r.value.0 != []
    decreases |b|, 3
  {
    match ReadEntry(isMap, b)
    case None => None
    case Some((e, rest)) =>
      if rest != [] && rest[0] == COMMA then
        match ReadEntries(isMap, rest[1..]) case None => None case Some((es, r)) => Some(([e] + es, r))
      else Some(([e], rest))
  }

  // ---- Soundness: what is recognised is the text of a well-formed tree ----

  lemma Associate(a: bytes, b: bytes, c: bytes)
    ensures a + (b + c) == a + b + c
  {
  }

  lemma ReadStrSound(b: bytes)
    requires ReadStr(b).Some?
    ensures var (body, rest) := ReadStr(b).value; IsBody(body) && b == StrText(body) + rest
  {
    var c := b[1..];
    var n := BodyLength(c);
    BodyPrefix(c);
    assert c == c[..n] + [QUOTE] + c[n + 1..];
    assert b == [QUOTE] + c;
  }

  lemma ReadWordSound(b: bytes)
    requires ReadWord(b).Some?
    ensures var (w, rest) := ReadWord(b).value; b == WordText(w) + rest
  {
  }

  lemma ReadKeySound(b: bytes)
    requires ReadKey(b).Some?
    ensures var (key, keyWs, rest) := ReadKey(b).value;
            IsBody(key) && All(IsWs, keyWs) && b == StrText(key) + (keyWs + [COLON]) + rest
  {
    hide ReadStr, IsBody, StrText, Span;
    ReadStrSound(b);
    var (key, r) := ReadStr(b).value;
    var k := Span(IsWs, r);
    SpanSplits(IsWs, r);
    var ws, rest := r[..k], r[k + 1..];
    assert r[k..] == [COLON] + rest;
    assert r == ws + [COLON] + rest;
    Associate(StrText(key), ws + [COLON], rest);
  }

  lemma {:induction false} ReadTreeSound(b: bytes)
    requires ReadTree(b).Some?
    ensures var (t, rest) := ReadTree(b).value;
            TreeOk(t) && b == TreeText(t) + rest && StopsAt(IsWs, rest) && (StopsAt(IsWs, b) ==> t.pre == [])
    decreases |b|, 1
  {
    hide ReadNode, NodeText, NodeOk, All;
    var n := Span(IsWs, b);
    SpanSplits(IsWs, b);
    var (node, r) := ReadNode(b[n..]).value;
    ReadNodeSound(b[n..]);
    SpanSplits(IsWs, r);
    var k := Span(IsWs, r);
    Associate(NodeText(node), r[..k], r[k..]);
    Associate(b[..n], NodeText(node) + r[..k], r[k..]);
  }

  lemma {:induction false} ReadNodeSound(b: bytes)
    requires ReadNode(b).Some?
    ensures var (n, rest) := ReadNode(b).value; NodeOk(n) && b == NodeText(n) + rest
    decreases |b|, 0
  {
    hide ReadStr, ReadNumber, ReadWord, ReadEntries, EntriesText, EntriesOk, NumberText, NumberOk, WordText, IsBody,
         StrText, HasPrefix;
    if b[0] == QUOTE {
      ReadStrSound(b);
    } else if b[0] == MINUS || IsDigit(b[0]) {
      ReadNumberSound(b);
    } else if b[0] == Open(true) || b[0] == Open(false) {
      ReadCollSound(b, b[0] == Open(true));
    } else {
      ReadWordSound(b);
    }
  }

  lemma {:induction false} ReadCollSound(b: bytes, isMap: bool)
    requires b != [] && b[0] == Open(isMap) && ReadNode(b).Some?
    ensures var (n, rest) := ReadNode(b).value; NodeOk(n) && b == NodeText(n) + rest
    decreases |b|, 0, 0
  {
    hide ReadStr, ReadNumber, ReadWord, ReadEntries, EntriesText, EntriesOk, All, HasPrefix, Span;
    var (node, rest) := ReadNode(b).value;
    var n := Span(IsWs, b[1..]);
    SpanSplits(IsWs, b[1..]);
    var b1 := b[1..][n..];
    if ReadEntries(isMap, b1).Some? {
      ReadEntriesSound(isMap, b1);
      var r := ReadEntries(isMap, b1).value.1;
      assert r == [Close(isMap)] + r[1..];
    } else {
      NoEntries(isMap);
      assert b1 == [] + ([Close(isMap)] + b1[1..]);
    }
    CollText(b, isMap, node.inner, node.entries, rest);
  }

  lemma CollText(b: bytes, isMap: bool, inner: bytes, es: seq<Entry>, rest: bytes)
    requires b != [] && b[0] == Open(isMap)
    requires b[1..] == inner + (EntriesText(isMap, es) + ([Close(isMap)] + rest))
    ensures b == NodeText(CollNode(isMap, inner, es)) + rest
  {
    hide EntriesText, Open, Close;
    var close: bytes := [Close(isMap)];
    Associate(EntriesText(isMap, es), close, rest);
    Associate(inner, EntriesText(isMap, es) + close, rest);
    Associate([b[0]], inner + (EntriesText(isMap, es) + close), rest);
    assert b == [b[0]] + b[1..];
  }

  lemma NoEntries(isMap: bool)
    ensures EntriesText(isMap, []) == [] && EntriesOk(isMap, [])
  {
  }

  lemma {:induction false} ReadEntrySound(isMap: bool, b: bytes)
    requires ReadEntry(isMap, b).Some?
    ensures var (e, rest) := ReadEntry(isMap, b).value;
            && EntryOk(isMap, e) && b == EntryText(isMap, e) + rest && StopsAt(IsWs, rest)
            && (StopsAt(IsWs, b) ==> if isMap then e.lead == [] else e.val.pre == [])
    decreases |b|, 2
  {
    hide ReadTree, TreeText, TreeOk, ReadKey, All, IsBody, StrText;
    if isMap {
      var n := Span(IsWs, b);
      SpanSplits(IsWs, b);
      ReadKeySound(b[n..]);
      var (key, keyWs, b1) := ReadKey(b[n..]).value;
      ReadTreeSound(b1);
      var (e, rest) := ReadEntry(isMap, b).value;
      Associate(b[..n], StrText(key) + (keyWs + [COLON]), b1);
      Associate(KeyText(e), TreeText(e.val), rest);
    } else {
      ReadTreeSound(b);
    }
  }

  lemma {:induction false} ReadEntriesSound(isMap: bool, b: bytes)
    requires ReadEntries(isMap, b).Some?
    ensures var (es, rest) := ReadEntries(isMap, b).value;
            && EntriesOk(isMap, es) && b == EntriesText(isMap, es) + rest && StopsAt(IsWs, rest)
            && (StopsAt(IsWs, b) ==> if isMap then es[0].lead == [] else es[0].val.pre == [])
    decreases |b|, 3
  {
    hide ReadEntry, EntryText, EntryOk, ReadTree;
    ReadEntrySound(isMap, b);
    var (e, r) := ReadEntry(isMap, b).value;
    if r != [] && r[0] == COMMA {
      ReadEntriesSound(isMap, r[1..]);
      var (es, rest) := ReadEntries(isMap, r[1..]).value;
      assert ([e] + es)[1..] == es;
      assert r == [COMMA] + r[1..];
      Associate([COMMA], EntriesText(isMap, es), rest);
      Associate(EntryText(isMap, e), [COMMA] + EntriesText(isMap, es), rest);
    } else {
      OneEntry(isMap, e);
    }
  }

  lemma OneEntry(isMap: bool, e: Entry)
    ensures EntriesText(isMap, [e]) == EntryText(isMap, e)
    ensures EntriesOk(isMap, [e]) == EntryOk(isMap, e)
  {
    hide EntryText, EntryOk;
    assert [e][1..] == [];
  }

  // ---- Completeness: the text of a well-formed tree is recognised as that tree ----

  /** What follows a value in an accepted text: the end, or one of `,` `:` `]` `}`. */
  predicate ValueEnds(t: bytes) { t == [] || t[0] == COMMA || t[0] == COLON || t[0] == Close(true) || t[0] == Close(false) }

  lemma SpanOfWs(ws: bytes, t: bytes)
    requires All(IsWs, ws) && StopsAt(IsWs, t)
    ensures var b := ws + t; Span(IsWs, b) == |ws| && b[..|ws|] == ws && b[|ws|..] == t
  {
    SpanOf(IsWs, ws, t);
  }

  lemma ReadStrOf(body: bytes, t: bytes)
    requires IsBody(body)
    ensures ReadStr(StrText(body) + t) == Some((body, t))
  {
    var c := body + ([QUOTE] + t);
    assert (StrText(body) + t)[1..] == c;
    BodyLengthOf(body, [QUOTE] + t);
    assert c[..|body|] == body && c[|body| + 1..] == t;
  }

  lemma ReadWordOf(w: Word, t: bytes)
    ensures ReadWord(WordText(w) + t) == Some((w, t))
  {
    var b := WordText(w) + t;
    assert b[..|WordText(w)|] == WordText(w) && b[|WordText(w)|..] == t;
    assert b[0] == WordText(w)[0];
    if w.FalseWord? { assert b[..4][0] == 102; }
    if w.NullWord? { assert b[..4][0] == 110; assert |b| >= 5 ==> b[..5][0] == 110; }
  }

  lemma ReadKeyOf(key: bytes, ws: bytes, t: bytes)
    requires IsBody(key) && All(IsWs, ws)
    ensures ReadKey(StrText(key) + (ws + [COLON]) + t) == Some((key, ws, t))
  {
    hide ReadStr, IsBody, StrText, All, Span;
    var r := ws + ([COLON] + t);
    Associate(ws, [COLON], t);
    Associate(StrText(key), ws + [COLON], t);
    ReadStrOf(key, r);
    SpanOfWs(ws, [COLON] + t);
    assert r[|ws| + 1..] == t;
  }

  /** How the text of a node begins; in particular not with white space or the end of a value. */
  lemma NodeStarts(n: Node)
    requires NodeOk(n)
    ensures var b := NodeText(n); b != [] && !IsWs(b[0]) && !ValueEnds(b)
    ensures NodeText(n)[0] == match n { case StrNode(_) => QUOTE case CollNode(m, _, _) => Open(m)
                                        case NumNode(num) => NumberText(num)[0] case WordNode(w) => WordText(w)[0] }
    ensures n.NumNode? ==> var c := NodeText(n)[0]; c == MINUS || IsDigit(c)
    ensures n.WordNode? ==> var c := NodeText(n)[0]; c == 116 || c == 102 || c == 110
  {
    hide EntriesText, EntriesOk, FracText, ExpText, ExponentOk;
    if n.NumNode? { NumberStarts(n.n); }
  }

  lemma NumberStarts(n: Number)
    requires NumberOk(n)
    ensures var b := NumberText(n); b != [] && (b[0] == MINUS || IsDigit(b[0]))
  {
    assert n.whole[0] in n.whole;
  }

  lemma {:induction false} ReadTreeOf(t: Tree, r: bytes)
    requires TreeOk(t) && ValueEnds(r)
    ensures ReadTree(TreeText(t) + r) == Some((t, r))
    decreases t
  {
    hide NodeText, NodeOk, ReadNode, All, Span;
    var c := t.post + r;
    var d := NodeText(t.node) + c;
    Associate(NodeText(t.node), t.post, r);
    Associate(t.pre, NodeText(t.node) + t.post, r);
    NodeStarts(t.node);
    SpanOfWs(t.pre, d);
    PostEnds(t.post, r);
    ReadNodeOf(t.node, c);
    SpanOfWs(t.post, r);
  }

  lemma PostEnds(ws: bytes, r: bytes)
    requires All(IsWs, ws) && ValueEnds(r)
    ensures NumberEnds(ws + r)
  {
    if ws != [] { assert ws[0] in ws && (ws + r)[0] == ws[0]; } else { assert ws + r == r; }
  }

  lemma {:induction false} ReadNodeOf(n: Node, r: bytes)
    requires NodeOk(n) && NumberEnds(r)
    ensures ReadNode(NodeText(n) + r) == Some((n, r))
    decreases n
  {
    hide ReadStr, ReadNumber, ReadWord, ReadEntries, EntriesText, EntriesOk, NumberText, NumberOk, WordText, IsBody,
         StrText, HasPrefix, NumberEnds;
    NodeStarts(n);
    match n
    case StrNode(body) => ReadStrOf(body, r);
    case NumNode(num) => ReadNumberOf(num, r);
    case WordNode(w) => ReadWordOf(w, r);
    case CollNode(isMap, inner, es) => ReadCollOf(n, r);
  }

  lemma {:induction false} ReadCollOf(n: Node, r: bytes)
    requires NodeOk(n) && n.CollNode?
    ensures ReadNode(NodeText(n) + r) == Some((n, r))
    decreases n, 0
  {
    hide ReadStr, ReadNumber, ReadWord, ReadClosed, EntriesText, EntriesOk, HasPrefix, All, Span;
    var isMap, es := n.isMap, n.entries;
    var d := EntriesText(isMap, es) + ([Close(isMap)] + r);
    CollStarts(n, r);
    EntriesStart(isMap, es, [Close(isMap)] + r);
    SpanOfWs(n.inner, d);
    ReadClosedOf(isMap, es, r);
  }

  lemma CollStarts(n: Node, r: bytes)
    requires n.CollNode?
    ensures var b := NodeText(n) + r;
            b != [] && b[0] == Open(n.isMap) && b[1..] == n.inner + (EntriesText(n.isMap, n.entries) + ([Close(n.isMap)] + r))
  {
    hide EntriesText, Open, Close;
    var close, text := [Close(n.isMap)], EntriesText(n.isMap, n.entries);
    Associate(text, close, r);
    Associate(n.inner, text + close, r);
    Associate([Open(n.isMap)], n.inner + (text + close), r);
  }

  lemma {:induction false} ReadClosedOf(isMap: bool, es: seq<Entry>, r: bytes)
    requires EntriesOk(isMap, es)
    ensures ReadClosed(isMap, EntriesText(isMap, es) + ([Close(isMap)] + r)) == Some((es, r))
    decreases es, 1
  {
    hide ReadEntries, ReadEntry, EntriesText, EntriesOk;
    var close := [Close(isMap)] + r;
    if es == [] {
      NoEntries(isMap);
      assert EntriesText(isMap, es) + close == close;
      NothingAtClose(isMap, close);
    } else {
      ReadEntriesOf(isMap, es, close);
    }
  }

  lemma EntriesStart(isMap: bool, es: seq<Entry>, t: bytes)
    requires EntriesOk(isMap, es) && StopsAt(IsWs, t)
    requires es != [] ==> if isMap then es[0].lead == [] else es[0].val.pre == []
    ensures StopsAt(IsWs, EntriesText(isMap, es) + t)
  {
    hide NodeText, NodeOk, All;
    if es == [] {
      assert EntriesText(isMap, es) + t == t;
    } else {
      EntryStarts(isMap, es[0]);
      var e := EntryText(isMap, es[0]);
      assert EntriesText(isMap, es)[0] == e[0];
    }
  }

  lemma EntryStarts(isMap: bool, e: Entry)
    requires EntryOk(isMap, e)
    requires if isMap then e.lead == [] else e.val.pre == []
    ensures EntryText(isMap, e) != [] && !IsWs(EntryText(isMap, e)[0])
  {
    hide NodeText, NodeOk, All;
    if isMap {
      assert EntryText(isMap, e)[0] == QUOTE;
    } else {
      NodeStarts(e.val.node);
      assert TreeText(e.val)[0] == NodeText(e.val.node)[0];
    }
  }

  lemma NothingAtClose(isMap: bool, b: bytes)
    requires b != [] && b[0] == Close(isMap)
    ensures ReadEntry(isMap, b).None? && ReadEntries(isMap, b).None?
  {
    assert b[0..] == b;
    assert ReadStr(b).None?;
    assert ReadWord(b).None? by {
      if |b| >= 4 { assert b[..4][0] == b[0]; }
      if |b| >= 5 { assert b[..5][0] == b[0]; }
    }
    assert Span(IsWs, b) == 0;
    if isMap { assert ReadKey(b).None?; } else { assert ReadNode(b).None?; assert ReadTree(b).None?; }
  }

  lemma {:induction false} ReadEntryOf(isMap: bool, e: Entry, r: bytes)
    requires EntryOk(isMap, e) && ValueEnds(r)
    ensures ReadEntry(isMap, EntryText(isMap, e) + r) == Some((e, r))
    decreases e
  {
    hide ReadTree, TreeText, TreeOk, ReadKey, All, IsBody, Span;
    ReadTreeOf(e.val, r);
    if isMap {
      var b1 := TreeText(e.val) + r;
      var k := StrText(e.key) + (e.keyWs + [COLON]);
      Associate(KeyText(e), TreeText(e.val), r);
      Associate(e.lead, k, b1);
      assert (k + b1)[0] == QUOTE;
      SpanOfWs(e.lead, k + b1);
      ReadKeyOf(e.key, e.keyWs, b1);
    }
  }

  lemma {:induction false} ReadEntriesOf(isMap: bool, es: seq<Entry>, r: bytes)
    requires EntriesOk(isMap, es) && es != [] && ValueEnds(r) && (r == [] || r[0] != COMMA)
    ensures ReadEntries(isMap, EntriesText(isMap, es) + r) == Some((es, r))
    decreases es, 0
  {
    hide ReadEntry, EntryText, EntryOk;
    if |es| == 1 {
      assert es == [es[0]];
      OneEntry(isMap, es[0]);
      ReadEntryOf(isMap, es[0], r);
    } else {
      var tail := EntriesText(isMap, es[1..]);
      var c := [COMMA] + (tail + r);
      Associate([COMMA], tail, r);
      Associate(EntryText(isMap, es[0]), [COMMA] + tail, r);
      ReadEntryOf(isMap, es[0], c);
      ReadEntriesOf(isMap, es[1..], r);
      assert c[1..] == tail + r;
      assert [es[0]] + es[1..] == es;
    }
  }

  /** A text is accepted as a whole exactly when it is the text of a well-formed tree, and that tree is the
      only one with this text. */
  lemma AcceptsExactlyTrees(b: bytes, t: Tree)
    ensures ReadTree(b) == Some((t, [])) <==> TreeOk(t) && TreeText(t) == b
  {
    if ReadTree(b) == Some((t, [])) {
      ReadTreeSound(b);
      assert TreeText(t) + [] == TreeText(t);
    }
    if TreeOk(t) && TreeText(t) == b {
      ReadTreeOf(t, []);
      assert TreeText(t) + [] == b;
    }
  }
}
