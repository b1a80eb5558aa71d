/** Encoding an object and decoding the text again (`ggl-json/src/json_encode.c`, `ggl-json/src/json_decode.c`), and
    exactly when that gives the object back. */
module JsonRoundTrip {
  import opened Buffer
  import opened JsonSyntax
  import opened JsonTree
  import opened JsonUnescape
  import opened JsonDecode
  import opened JsonEncode
  import opened JsonWriter
  import opened Int64Text
  import opened Objects

  // ---- Objects with ASCII strings have a tree ----

  /** An object whose strings are ASCII: its own tree is the one that is read, and stands for the object. */
  lemma OwnTree(o: Obj, printf: Printf, strtod: Strtod)
    requires NoFloats(o) && WellFormed(o) && StringsAre(IsAscii, o)
    ensures TreeOk(Bare(NodeOf(o))) && TreeText(Bare(NodeOf(o))) == Encoded(o, printf)
    ensures PlainNode(NodeOf(o)) <==> StringsAre(IsPrintable, o)
    ensures NodeResult(NodeOf(o), Need(o), strtod) == Decoded(o, 0)
  {
    hide Encoded, NodeOf, NodeOk, NodeText, NoFloats, WellFormed, StringsAre, PlainNode, NodeResult, Need, IsAscii, IsPrintable;
    var b := Encoded(o, printf);
    EncodedIsText(o, printf);
    assert [] + (b + []) == b;
    NoWs();
    NodeOfOk(o);
    NodeOfPlain(o);
    NodeRoundTrip(o, Need(o), strtod);
  }

  /** An object with another string has none. */
  lemma NoTree(o: Obj, printf: Printf, t: Tree)
    requires NoFloats(o) && !StringsAre(IsAscii, o) && TreeOk(t)
    ensures TreeText(t) != Encoded(o, printf)
  {
    hide Encoded, NodeOf, NodeOk, NodeText, NoFloats, StringsAre, IsAscii;
    TreeIsAscii(t);
    if TreeText(t) == Encoded(o, printf) { EncodedAscii(o, printf); }
  }

  /** Whatever decoding the text of `o` yields, it is `o` exactly when every string is printable and the memory
      suffices. */
  lemma DecodesOwnText(o: Obj, printf: Printf, free: nat, strtod: Strtod, r: Result<Obj>)
    requires NoFloats(o) && WellFormed(o) && DecodesTo(Encoded(o, printf), free, strtod, r)
    ensures r.Decoded? && r.value == o <==> StringsAre(IsPrintable, o) && Need(o) <= free
    ensures StringsAre(IsPrintable, o) && Need(o) <= free ==> r == Decoded(o, free - Need(o))
  {
    hide Encoded, NodeOf, NodeOk, TreeText, TreeOk, NoFloats, WellFormed, StringsAre, PlainNode, NodeResult, Need, IsAscii,
         IsPrintable, Bare;
    if StringsAre(IsPrintable, o) { PrintableIsAscii(o); }
    if StringsAre(IsAscii, o) {
      OwnTree(o, printf, strtod);
      NodeIs(o);
      if StringsAre(IsPrintable, o) {
        if Need(o) <= free { NodeRoundTrip(o, free, strtod); } else { TooLittle(o, free, strtod, r); }
      }
    } else {
      forall t | TreeOk(t) ensures TreeText(t) != Encoded(o, printf) { NoTree(o, printf, t); }
    }
  }

  lemma NodeIs(o: Obj)
    requires NoFloats(o)
    ensures Bare(NodeOf(o)).node == NodeOf(o)
  {
  }

  lemma TooLittle(o: Obj, free: nat, strtod: Strtod, r: Result<Obj>)
    requires NoFloats(o) && WellFormed(o) && StringsAre(IsPrintable, o) && Need(o) > free
    requires r == NodeResult(NodeOf(o), free, strtod)
    ensures !(r.Decoded? && r.value == o)
  {
    hide NodeOf, NodeOk, NoFloats, WellFormed, StringsAre, PlainNode, NodeResult, Need, IsAscii, IsPrintable, InRangeNode,
         NodeNeed;
    PrintableIsAscii(o);
    NodeOfOk(o);
    NodeOfPlain(o);
    DecodesExactly(NodeOf(o), free, strtod);
  }

  // ---- An integer that loses its last digit ----

  lemma NumberEnd(n: Number)
    requires NumberOk(n)
    ensures NumberText(n) != [] && NumberText(n)[|NumberText(n)| - 1] != 0
  {
    var s := NumberText(n);
    if n.exp.Some? {
      var d := n.exp.value.digits;
      assert d[|d| - 1] in d && s[|s| - 1] == d[|d| - 1];
    } else if n.frac.Some? && n.frac.value != [] {
      var d := n.frac.value;
      assert d[|d| - 1] in d && s[|s| - 1] == d[|d| - 1];
    } else if n.frac.Some? {
      assert s[|s| - 1] == DOT;
    } else {
      var d := n.whole;
      assert d[|d| - 1] in d && s[|s| - 1] == d[|d| - 1];
    }
  }

  lemma NodeEnd(n: Node)
    requires NodeOk(n)
    ensures NodeText(n) != [] && NodeText(n)[|NodeText(n)| - 1] != 0
  {
    hide NumberText, EntriesText, EntriesOk, NumberOk, IsBody;
    match n
    case StrNode(body) =>
    case NumNode(num) => NumberEnd(num);
    case WordNode(w) =>
    case CollNode(isMap, inner, es) =>
      var s := NodeText(n);
      assert s[|s| - 1] == Close(isMap);
  }

  /** No text ends in a NUL. */
  lemma TreeEnd(t: Tree)
    requires TreeOk(t)
    ensures TreeText(t) != [] && TreeText(t)[|TreeText(t)| - 1] != 0
  {
    hide NodeText, NodeOk;
    NodeEnd(t.node);
    var s := TreeText(t);
    if t.post != [] {
      assert t.post[|t.post| - 1] in t.post && s[|s| - 1] == t.post[|t.post| - 1];
    } else {
      var x := NodeText(t.node);
      assert s == t.pre + x;
    }
  }

  lemma ClippedFails(s: bytes, free: nat, strtod: Strtod, r: Result<Obj>)
    requires s != [] && DecodesTo(Clip(s), free, strtod, r)
    ensures r.Failed?
  {
    hide TreeOk, TreeText, PlainNode, NodeResult, Misread;
    forall t | TreeOk(t) ensures TreeText(t) != Clip(s) { TreeEnd(t); }
  }

  /** The integer fills the buffer, and its last digit makes way for a terminator. */
  predicate IsClipped(o: Obj, size: nat, printf: Printf) { o.I64? && |Encoded(o, printf)| == size }

  lemma WhatIsShown(o: Obj, size: nat, printf: Printf)
    requires NoFloats(o)
    ensures Shown(o, size, printf) == if IsClipped(o, size, printf) then Clip(Encoded(o, printf)) else Encoded(o, printf)
    ensures o.I64? ==> Encoded(o, printf) != []
  {
    hide NoFloatEntries, EncodedEntries, Digits, Escaped, Clip;
    if o.I64? {
      var x: int := o.i;
      LastDigit(if x < 0 then -x else x);
    }
  }

  /** Encodes an object into a buffer and decodes what stands there. The object comes back exactly when every string
      in it is printable ASCII, it is not an integer that fills the buffer, and the memory suffices. */
  method RoundTrip(o: Obj, buf: array<byte>, printf: Printf, free: nat, strtod: Strtod) returns (ok: bool, r: Result<Obj>)
    requires NoFloats(o) && WellFormed(o)
    modifies buf
    ensures ok <==> |Encoded(o, printf)| <= buf.Length
    ensures ok ==>
              (r.Decoded? && r.value == o <==>
               StringsAre(IsPrintable, o) && !IsClipped(o, buf.Length, printf) && Need(o) <= free)
  {
    hide Encoded, NoFloats, WellFormed, StringsAre, IsPrintable, Need, Shown, Clip, IsClipped, DecodesTo;
    var len;
    ok, len := Encode(o, buf, printf);
    if !ok { return false, Failed(NoMemory); }
    WhatIsShown(o, buf.Length, printf);
    r := DecodeDestructive(buf, len, free, strtod);
    if IsClipped(o, buf.Length, printf) {
      IntegerOnly(o, buf.Length, printf);
      ClippedFails(Encoded(o, printf), free, strtod, r);
    } else {
      DecodesOwnText(o, printf, free, strtod, r);
    }
  }

  lemma IntegerOnly(o: Obj, size: nat, printf: Printf)
    requires IsClipped(o, size, printf)
    ensures o.I64?
  {
  }
}
