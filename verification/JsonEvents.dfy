/** What decides how the decoding of a JSON text ends (`ggl-json/src/json_decode.c`): its strings, numbers and collections
    in the order of the text, each with the bytes behind it, and the first of them that fails. */
module JsonEvents {
  import opened Buffer
  import opened JsonSyntax
  import opened JsonTree
  import opened JsonUnescape
  import opened JsonDecode
  import opened Int64Text
  import opened Objects

  /** A string with `gap` bytes behind it that are not read any more and `room` bytes of memory behind it, a number, or
      the allocation for a collection. */
  datatype Event = Str(body: bytes, gap: nat, room: nat) | Num(n: Number) | Alloc(size: nat)

  ghost function NodeEvents(n: Node, gap: nat, room: nat): seq<Event>
    decreases n
  {
    match n
    case StrNode(body) => [Str(body, gap + 1, room + 1)]
    case NumNode(num) => [Num(num)]
    case WordNode(_) => []
    case CollNode(isMap, _, es) => [Alloc(Cost(isMap, |es|))] + EntriesEvents(isMap, es, gap + 1, room + 1)
  }

  /** Behind a key everything up to the colon may be overwritten. */
  ghost function EntryEvents(isMap: bool, e: Entry, gap: nat, room: nat): seq<Event>
    decreases e
  {
    var ws := 1 + |e.keyWs|;
    (if isMap then [Str(e.key, ws, ws + 1 + |TreeText(e.val)| + room)] else []) +
    NodeEvents(e.val.node, |e.val.post| + gap, |e.val.post| + room)
  }

  /** Behind an entry everything up to the comma may be; behind the last one, what may be behind the collection. */
  ghost function EntriesEvents(isMap: bool, es: seq<Entry>, gap: nat, room: nat): seq<Event>
    decreases es
  {
    if es == [] then []
    else if |es| == 1 then EntryEvents(isMap, es[0], gap, room)
    else
      EntryEvents(isMap, es[0], 0, |EntriesTail(isMap, es)| + room) + EntriesEvents(isMap, es[1..], gap, room)
  }

  /** The events of a whole text with `room` bytes of memory behind it. */
  ghost function TreeEvents(t: Tree, room: nat): seq<Event> { NodeEvents(t.node, |t.post| + room, |t.post| + room) }

  /** Why an event fails. A string without `\uXXXX` escapes never does. Any other fails unless its first escape is one
      and its value, not a backslash, overwrites nothing that is still to be read. */
  ghost function Failure(ev: Event, free: nat, strtod: Strtod): Option<Error> {
    match ev
    case Str(body, gap, room) =>
      if !HasUnicode(body) then None
      else if Spill(body) == 0 then Some(ParseError)
      else if Spill(body) > room then Some(LeavesBuffer)
      else if Spill(body) > gap then Some(ParseError)
      else None
    case Num(n) => if NumberResult(n, 0, strtod).Failed? then Some(RangeError) else None
    case Alloc(size) => if size > free then Some(NoMemory) else None
  }

  datatype Played = Fine(free: nat) | Broken(error: Error)

  /** The events one after the other, up to the first that fails. */
  ghost function Play(events: seq<Event>, free: nat, strtod: Strtod): Played
    decreases |events|
  {
    if events == [] then Fine(free)
    else
      match Failure(events[0], free, strtod)
      case Some(e) => Broken(e)
      case None => Play(events[1..], if events[0].Alloc? then free - events[0].size else free, strtod)
  }

  lemma {:induction false} PlayBoth(a: seq<Event>, b: seq<Event>, free: nat, strtod: Strtod)
    ensures Play(a + b, free, strtod) ==
            match Play(a, free, strtod) { case Broken(e) => Broken(e) case Fine(left) => Play(b, left, strtod) }
    decreases |a|
  {
    hide Failure;
    if a == [] {
      assert a + b == b;
    } else {
      assert (a + b)[0] == a[0] && (a + b)[1..] == a[1..] + b;
      if Failure(a[0], free, strtod).None? {
        if a[0].Alloc? { AllocFits(a[0], free, strtod); }
        PlayBoth(a[1..], b, if a[0].Alloc? then free - a[0].size else free, strtod);
      }
    }
  }

  lemma AllocFits(ev: Event, free: nat, strtod: Strtod)
    requires ev.Alloc? && Failure(ev, free, strtod).None?
    ensures ev.size <= free
  {
  }

  lemma PlayOne(ev: Event, free: nat, strtod: Strtod)
    ensures Play([ev], free, strtod) ==
            match Failure(ev, free, strtod)
            case Some(e) => Broken(e)
            case None => Fine(if ev.Alloc? then free - ev.size else free)
  {
    assert [ev][1..] == [];
  }

  /** What a part of the text comes to, if `gap` bytes behind it are not read any more. */
  ghost function Ended<T>(r: Ran<T>, gap: nat): Played {
    match r.result
    case Failed(e) => Broken(e)
    case Decoded(_, left) => if r.spoilt > gap then Broken(ParseError) else Fine(left)
  }

  lemma StrPlays(body: bytes, free: nat, strtod: Strtod, gap: nat, room: nat)
    requires IsBody(body)
    ensures Play([Str(body, gap, room)], free, strtod) == Ended(StrRun(body, free, room), gap)
  {
    hide HasUnicode, Denotes, Spill, Garbled;
    PlayOne(Str(body, gap, room), free, strtod);
    NoPlainString(body);
  }

  lemma {:induction false} NodePlays(n: Node, free: nat, strtod: Strtod, gap: nat, room: nat)
    requires NodeOk(n)
    ensures Play(NodeEvents(n, gap, room), free, strtod) == Ended(NodeRun(n, free, strtod, room), gap)
    decreases n
  {
    hide Play, Failure, EntriesEvents, EntriesRun, EntriesOk, IsBody, StrRun, Cost, NumberOk, NumberResult;
    match n
    case StrNode(body) => StrPlays(body, free, strtod, gap + 1, room + 1);
    case NumNode(num) => NumPlays(num, free, strtod);
    case WordNode(_) => NonePlay(free, strtod);
    case CollNode(isMap, _, es) =>
      var first := Alloc(Cost(isMap, |es|));
      AllocPlays(Cost(isMap, |es|), free, strtod);
      PlayBoth([first], EntriesEvents(isMap, es, gap + 1, room + 1), free, strtod);
      if Cost(isMap, |es|) <= free { EntriesPlay(isMap, es, free - Cost(isMap, |es|), strtod, gap + 1, room + 1); }
  }

  lemma NonePlay(free: nat, strtod: Strtod)
    ensures Play([], free, strtod) == Fine(free)
  {
  }

  lemma AllocPlays(size: nat, free: nat, strtod: Strtod)
    ensures Play([Alloc(size)], free, strtod) == if size > free then Broken(NoMemory) else Fine(free - size)
  {
    PlayOne(Alloc(size), free, strtod);
  }

  lemma NumPlays(n: Number, free: nat, strtod: Strtod)
    ensures Play([Num(n)], free, strtod) ==
            match NumberResult(n, free, strtod) { case Failed(e) => Broken(e) case Decoded(_, left) => Fine(left) }
  {
    PlayOne(Num(n), free, strtod);
  }

  lemma {:induction false} EntryPlays(isMap: bool, e: Entry, free: nat, strtod: Strtod, gap: nat, room: nat)
    requires EntryOk(isMap, e)
    ensures Play(EntryEvents(isMap, e, gap, room), free, strtod) == Ended(EntryRun(isMap, e, free, strtod, room), gap)
    decreases e
  {
    hide Play, NodeEvents, NodeRun, NodeOk, IsBody, StrRun, TreeText, All;
    var ws, rest := 1 + |e.keyWs|, NodeEvents(e.val.node, |e.val.post| + gap, |e.val.post| + room);
    var behind := ws + 1 + |TreeText(e.val)| + room;
    var keys := if isMap then [Str(e.key, ws, behind)] else [];
    var key := if isMap then StrRun(e.key, free, behind) else Ran(Decoded([], free), 0);
    PlayBoth(keys, rest, free, strtod);
    if isMap { StrPlays(e.key, free, strtod, ws, behind); } else { NonePlay(free, strtod); }
    if key.result.Decoded? { NodePlays(e.val.node, key.result.free, strtod, |e.val.post| + gap, |e.val.post| + room); }
  }

  lemma {:induction false} EntriesPlay(isMap: bool, es: seq<Entry>, free: nat, strtod: Strtod, gap: nat, room: nat)
    requires EntriesOk(isMap, es)
    ensures Play(EntriesEvents(isMap, es, gap, room), free, strtod) == Ended(EntriesRun(isMap, es, free, strtod, room), gap)
    decreases es
  {
    hide Play, EntryEvents, EntryRun, EntryOk, EntriesText;
    if es == [] {
      NonePlay(free, strtod);
    } else if |es| == 1 {
      EntryPlays(isMap, es[0], free, strtod, gap, room);
    } else {
      var behind := |EntriesTail(isMap, es)| + room;
      var first := EntryRun(isMap, es[0], free, strtod, behind);
      EntryPlays(isMap, es[0], free, strtod, 0, behind);
      PlayBoth(EntryEvents(isMap, es[0], 0, behind), EntriesEvents(isMap, es[1..], gap, room), free, strtod);
      if first.result.Decoded? { EntriesPlay(isMap, es[1..], first.result.free, strtod, gap, room); }
    }
  }

  // ---- The whole text ----

  lemma {:induction false} SpoilsInside(n: Node, free: nat, strtod: Strtod, room: nat)
    ensures NodeRun(n, free, strtod, room).spoilt <= room
    decreases n
  {
    hide EntriesRun, Cost, HasUnicode, Denotes, Spill, Garbled;
    if n.CollNode? && Cost(n.isMap, |n.entries|) <= free {
      EntriesSpoilInside(n.isMap, n.entries, free - Cost(n.isMap, |n.entries|), strtod, room + 1);
    }
  }

  lemma {:induction false} EntriesSpoilInside(isMap: bool, es: seq<Entry>, free: nat, strtod: Strtod, room: nat)
    ensures EntriesRun(isMap, es, free, strtod, room).spoilt <= room
    decreases es
  {
    hide NodeRun, StrRun, TreeText, EntriesText;
    if es != [] {
      var behind := |EntriesTail(isMap, es)| + room;
      var first := EntryRun(isMap, es[0], free, strtod, behind);
      if first.result.Decoded? {
        if |es| == 1 {
          EntrySpoilsInside(isMap, es[0], free, strtod, behind);
        } else {
          EntriesSpoilInside(isMap, es[1..], first.result.free, strtod, room);
        }
      }
    }
  }

  lemma {:induction false} EntrySpoilsInside(isMap: bool, e: Entry, free: nat, strtod: Strtod, room: nat)
    ensures EntryRun(isMap, e, free, strtod, room).spoilt <= room
    decreases e
  {
    hide NodeRun, StrRun, TreeText;
    var key := if isMap then StrRun(e.key, free, 1 + |e.keyWs| + 1 + |TreeText(e.val)| + room) else Ran(Decoded([], free), 0);
    if key.result.Decoded? { SpoilsInside(e.val.node, key.result.free, strtod, |e.val.post| + room); }
  }

  /** For every text: decoding fails with the error of the first event that fails, and succeeds if none does. */
  lemma FirstFailureDecides(t: Tree, free: nat, strtod: Strtod, room: nat)
    requires TreeOk(t)
    ensures Play(TreeEvents(t, room), free, strtod) ==
            match TreeRun(t, free, strtod, room).result { case Failed(e) => Broken(e) case Decoded(_, left) => Fine(left) }
  {
    hide Play, NodeEvents, NodeRun, NodeOk, All;
    NodePlays(t.node, free, strtod, |t.post| + room, |t.post| + room);
    SpoilsInside(t.node, free, strtod, |t.post| + room);
  }

  lemma {:induction false} BrokenAt(events: seq<Event>, free: nat, strtod: Strtod, e: Error)
    ensures Play(events, free, strtod) == Broken(e) <==>
            exists i :: 0 <= i < |events| && FailsAt(events, free, strtod, i, e)
    decreases |events|
  {
    hide Failure;
    if events != [] {
      var ev, rest := events[0], events[1..];
      assert events[..0] == [];
      if Failure(ev, free, strtod).None? {
        if ev.Alloc? { AllocFits(ev, free, strtod); }
        var left := if ev.Alloc? then free - ev.size else free;
        BrokenAt(rest, left, strtod, e);
        forall i | 0 <= i < |rest|
          ensures FailsAt(rest, left, strtod, i, e) <==> FailsAt(events, free, strtod, i + 1, e)
        {
          assert events[..i + 1][0] == ev && events[..i + 1][1..] == rest[..i];
        }
        if exists i :: 0 <= i < |rest| && FailsAt(rest, left, strtod, i, e) {
          var i :| 0 <= i < |rest| && FailsAt(rest, left, strtod, i, e);
          assert FailsAt(events, free, strtod, i + 1, e);
        }
        if exists i :: 0 <= i < |events| && FailsAt(events, free, strtod, i, e) {
          var i :| 0 <= i < |events| && FailsAt(events, free, strtod, i, e);
          assert i > 0;
          assert FailsAt(rest, left, strtod, i - 1, e);
        }
      } else {
        FirstFails(events, free, strtod, e);
      }
    }
  }

  /** All events before `i` are fine, and `i` fails with `e`. */
  ghost predicate FailsAt(events: seq<Event>, free: nat, strtod: Strtod, i: nat, e: Error)
    requires i < |events|
  {
    var before := Play(events[..i], free, strtod);
    before.Fine? && Failure(events[i], before.free, strtod) == Some(e)
  }

  lemma FirstFails(events: seq<Event>, free: nat, strtod: Strtod, e: Error)
    requires events != [] && Failure(events[0], free, strtod).Some?
    ensures (exists i :: 0 <= i < |events| && FailsAt(events, free, strtod, i, e)) <==>
            Failure(events[0], free, strtod) == Some(e)
  {
    hide Failure;
    assert events[..0] == [];
    if Failure(events[0], free, strtod) == Some(e) { assert FailsAt(events, free, strtod, 0, e); }
    forall i | 0 < i < |events| ensures !FailsAt(events, free, strtod, i, e) { assert events[..i][0] == events[0]; }
  }

  ghost predicate SpillsOver(ev: Event) { ev.Str? && HasUnicode(ev.body) && Spill(ev.body) > ev.room }

  /** Decoding writes behind the end of the memory exactly when some string spills further than that, and everything
      in front of it is fine: each number in range, each collection within the memory to allocate, each string
      without `\uXXXX` escapes or spilling over nothing that is still to be read. */
  lemma LeavesExactly(t: Tree, free: nat, strtod: Strtod, room: nat)
    requires TreeOk(t)
    ensures TreeRun(t, free, strtod, room).result == Failed(LeavesBuffer) <==>
            exists i :: 0 <= i < |TreeEvents(t, room)| &&
                        Play(TreeEvents(t, room)[..i], free, strtod).Fine? && SpillsOver(TreeEvents(t, room)[i])
  {
    hide TreeEvents, TreeRun, TreeOk, Play;
    var events := TreeEvents(t, room);
    FirstFailureDecides(t, free, strtod, room);
    BrokenAt(events, free, strtod, LeavesBuffer);
    forall i | 0 <= i < |events|
      ensures FailsAt(events, free, strtod, i, LeavesBuffer) <==>
              Play(events[..i], free, strtod).Fine? && SpillsOver(events[i])
    {
    }
  }
}
