/** Version range checks of `ggl-semver/src/semver.c`. `strverscmp` is the parameter `cmp`. */
module Semver {
  import opened Buffer

  type Compare = (bytes, bytes) -> int

  const SPACE: byte := 32
  const LESS: byte := 60
  const EQUALS: byte := 61
  const GREATER: byte := 62

  /** `NAME_MAX`, the capacity of both work buffers; one byte of each is the terminating NUL. */
  const NAME_MAX: nat := 255

  predicate IsDigit(c: byte) { 48 <= c <= 57 }

  /** The C string that starts at a buffer's first byte. */
  function CString(s: bytes): bytes {
    if s == [] || s[0] == 0 then [] else [s[0]] + CString(s[1..])
  }

  /** `process_version`: one NUL-terminated requirement against one version. */
  predicate ProcessVersion(cmp: Compare, req: bytes, version: bytes)
    requires req != [] && req[|req| - 1] == 0
  {
    if req[0] == GREATER then
      if req[1] == EQUALS then cmp(version, CString(req[2..])) >= 0 else cmp(version, CString(req[1..])) > 0
    else if req[0] == LESS then
      if req[1] == EQUALS then cmp(version, CString(req[2..])) <= 0 else cmp(version, CString(req[1..])) < 0
    else
      || (req[0] == EQUALS && cmp(version, CString(req[1..])) == 0)
      || (IsDigit(req[0]) && cmp(version, CString(req)) == 0)
  }

  /** A version meets one space-free requirement. */
  predicate Meets(cmp: Compare, version: bytes, req: bytes) {
    |version| < NAME_MAX && |req| < NAME_MAX && ProcessVersion(cmp, req + [0], CString(version + [0]))
  }

  /** What the scan accepts when `work` has been collected and `r` is still to be read. A separator takes
      the byte after it into the next requirement unseen, which for a final separator is the byte that
      follows the buffer in memory, `beyond`. */
  predicate Scan(cmp: Compare, version: bytes, work: bytes, r: bytes, beyond: byte)
    decreases |r|
  {
    if r == [] then work == [] || Meets(cmp, version, work)
    else if r[0] != SPACE then Scan(cmp, version, work + [r[0]], r[1..], beyond)
    else if |r| == 1 then Meets(cmp, version, work) && Scan(cmp, version, [beyond], [], beyond)
    else Meets(cmp, version, work) && Scan(cmp, version, [r[1]], r[2..], beyond)
  }

  /** The meaning of a requirement string. */
  predicate InRange(cmp: Compare, version: bytes, r: bytes, beyond: byte) {
    |version| < NAME_MAX && Scan(cmp, version, [], r, beyond)
  }

  /** A requirement that no longer fits the work buffer can no longer be met. */
  lemma {:induction false} OverlongFails(cmp: Compare, version: bytes, work: bytes, r: bytes, beyond: byte)
    requires |work| >= NAME_MAX
    ensures !Scan(cmp, version, work, r, beyond)
    decreases |r|
  {
    if r != [] && r[0] != SPACE { OverlongFails(cmp, version, work + [r[0]], r[1..], beyond); }
  }

  /** `is_in_range`: the scanning loop over fixed-capacity buffers. */
  method IsInRange(cmp: Compare, version: bytes, r: bytes, beyond: byte) returns (ok: bool)
    ensures ok <==> InRange(cmp, version, r, beyond)
  {
    if |version| + 1 > NAME_MAX { return false; }
    var current := CString(version + [0]);
    var work: bytes := [];
    var index := 0;
    assert r[0..] == r;
    while index < |r|
      invariant 0 <= index
      invariant |work| <= NAME_MAX
      invariant index > |r| ==> index == |r| + 1
      invariant InRange(cmp, version, r, beyond) <==>
                Scan(cmp, version, work, if index <= |r| then r[index..] else [], beyond)
      decreases |r| - index
    {
      ghost var rest := r[index..];
      if r[index] == SPACE {
        if |work| + 1 > NAME_MAX { return false; }
        if !ProcessVersion(cmp, work + [0], current) { return false; }
        work := [];
        index := index + 1;
        if index < |r| { assert rest[1] == r[index] && rest[2..] == r[index + 1..]; }
      } else {
        assert rest[1..] == r[index + 1..];
        if |work| >= NAME_MAX { OverlongFails(cmp, version, work, rest, beyond); }
      }
      if |work| + 1 > NAME_MAX { return false; }
      var c := if index < |r| then r[index] else beyond;
      assert [] + [c] == [c];
      work := work + [c];
      index := index + 1;
    }
    if work != [] {
      if |work| + 1 > NAME_MAX { return false; }
      return ProcessVersion(cmp, work + [0], current);
    }
    return true;
  }

  // Joining requirements with a space, as the resolver does.

  /** A requirement collected so far that starts with a space or a NUL can never be met. */
  lemma {:induction false} BadStartFails(cmp: Compare, version: bytes, work: bytes, r: bytes, beyond: byte)
    requires work != [] && (work[0] == SPACE || work[0] == 0)
    ensures !Scan(cmp, version, work, r, beyond)
    decreases |r|
  {
    if r != [] && r[0] != SPACE { BadStartFails(cmp, version, work + [r[0]], r[1..], beyond); }
  }

  /** A string that is empty or starts with a space adds an unmeetable requirement after a separator. */
  lemma SeparatorThen(cmp: Compare, version: bytes, r2: bytes, beyond: byte)
    requires r2 != []
    ensures Scan(cmp, version, [r2[0]], r2[1..], beyond) <==> Scan(cmp, version, [], r2, beyond)
  {
    if r2[0] == SPACE {
      BadStartFails(cmp, version, [r2[0]], r2[1..], beyond);
    } else {
      assert [] + [r2[0]] == [r2[0]];
    }
  }

  /** Joining never loosens: a version in the joined range is in both ranges, whatever the two strings and
      whatever byte follows them in memory. */
  lemma {:induction false} ScanJoinImplies(cmp: Compare, version: bytes, work: bytes, r1: bytes, r2: bytes,
                                           beyond1: byte, beyond: byte)
    requires Scan(cmp, version, work, r1 + [SPACE] + r2, beyond)
    ensures Scan(cmp, version, work, r1, beyond1) && Scan(cmp, version, [], r2, beyond)
    decreases |r1|
  {
    var r := r1 + [SPACE] + r2;
    if r1 == [] {
      assert r == [SPACE] + r2;
      if r2 != [] {
        assert r[1] == r2[0] && r[2..] == r2[1..];
        SeparatorThen(cmp, version, r2, beyond);
      }
    } else if r1[0] != SPACE {
      assert r[1..] == r1[1..] + [SPACE] + r2;
      ScanJoinImplies(cmp, version, work + [r1[0]], r1[1..], r2, beyond1, beyond);
    } else if |r1| == 1 {
      assert r[1] == SPACE;
      BadStartFails(cmp, version, [SPACE], r[2..], beyond);
    } else {
      assert r[1] == r1[1] && r[2..] == r1[2..] + [SPACE] + r2;
      ScanJoinImplies(cmp, version, [r1[1]], r1[2..], r2, beyond1, beyond);
    }
  }

  lemma JoinImpliesBoth(cmp: Compare, version: bytes, r1: bytes, r2: bytes, beyond: byte)
    requires InRange(cmp, version, r1 + [SPACE] + r2, beyond)
    ensures forall b :: InRange(cmp, version, r1, b)
    ensures InRange(cmp, version, r2, beyond)
  {
    ScanJoinImplies(cmp, version, [], r1, r2, beyond, beyond);
    forall b ensures InRange(cmp, version, r1, b) {
      ScanJoinImplies(cmp, version, [], r1, r2, b, beyond);
    }
  }

  /** What follows the separator: the second string, or the byte behind the buffer when that is empty. */
  predicate Tail(cmp: Compare, version: bytes, r2: bytes, beyond: byte) {
    if r2 == [] then Meets(cmp, version, [beyond]) else Scan(cmp, version, [], r2, beyond)
  }

  lemma {:induction false} ScanJoin(cmp: Compare, version: bytes, work: bytes, r1: bytes, r2: bytes,
                                    beyond: byte)
    requires work + r1 != [] && (r1 != [] ==> r1[|r1| - 1] != SPACE)
    ensures Scan(cmp, version, work, r1 + [SPACE] + r2, beyond) <==>
            Scan(cmp, version, work, r1, beyond) && Tail(cmp, version, r2, beyond)
    decreases |r1|
  {
    var r := r1 + [SPACE] + r2;
    if r1 == [] {
      assert r == [SPACE] + r2;
      if r2 != [] {
        assert r[1] == r2[0] && r[2..] == r2[1..];
        SeparatorThen(cmp, version, r2, beyond);
      }
    } else if r1[0] != SPACE {
      assert r[1..] == r1[1..] + [SPACE] + r2;
      ScanJoin(cmp, version, work + [r1[0]], r1[1..], r2, beyond);
    } else {
      assert r[1] == r1[1] && r[2..] == r1[2..] + [SPACE] + r2;
      ScanJoin(cmp, version, [r1[1]], r1[2..], r2, beyond);
    }
  }

  /** A first string that ends in a space puts the separator itself into the next requirement. */
  lemma {:induction false} TwoSpacesFail(cmp: Compare, version: bytes, work: bytes, r1: bytes, r2: bytes,
                                         beyond: byte)
    requires r1 != [] && r1[|r1| - 1] == SPACE
    ensures !Scan(cmp, version, work, r1 + [SPACE] + r2, beyond)
    decreases |r1|
  {
    var r := r1 + [SPACE] + r2;
    if r1[0] != SPACE {
      assert r[1..] == r1[1..] + [SPACE] + r2;
      TwoSpacesFail(cmp, version, work + [r1[0]], r1[1..], r2, beyond);
    } else if |r1| <= 2 {
      assert r[1] == SPACE;
      BadStartFails(cmp, version, [SPACE], r[2..], beyond);
    } else {
      assert r[1] == r1[1] && r[2..] == r1[2..] + [SPACE] + r2;
      TwoSpacesFail(cmp, version, [r1[1]], r1[2..], r2, beyond);
    }
  }

  predicate EndsInSpace(r: bytes) { r != [] && r[|r| - 1] == SPACE }

  /** The law of joining for any two strings. The joined range is empty if the first string is empty or ends
      in a space; otherwise it is what both allow, where an empty second string stands for the byte behind
      the buffer. So a version in both ranges is lost exactly in the three cases named last. */
  lemma JoinIsConjunction(cmp: Compare, version: bytes, r1: bytes, r2: bytes, beyond: byte)
    ensures InRange(cmp, version, r1 + [SPACE] + r2, beyond) <==>
            && r1 != [] && !EndsInSpace(r1)
            && InRange(cmp, version, r1, beyond)
            && (if r2 == [] then Meets(cmp, version, [beyond]) else InRange(cmp, version, r2, beyond))
    ensures InRange(cmp, version, r1, beyond) && InRange(cmp, version, r2, beyond) ==>
              (!InRange(cmp, version, r1 + [SPACE] + r2, beyond) <==>
               r1 == [] || EndsInSpace(r1) || (r2 == [] && !Meets(cmp, version, [beyond])))
  {
    if r1 == [] {
      assert (r1 + [SPACE] + r2)[0] == SPACE;
      assert !Meets(cmp, version, []);
    } else if EndsInSpace(r1) {
      TwoSpacesFail(cmp, version, [], r1, r2, beyond);
    } else {
      ScanJoin(cmp, version, [], r1, r2, beyond);
    }
  }

  lemma OneIsInRange(cmp: Compare, beyond: byte)
    requires cmp([49], [49]) == 0
    ensures InRange(cmp, [49], [49], beyond) && Meets(cmp, [49], [49])
  {
    assert CString([49, 0]) == [49] by { assert [49, 0][1..] == [0]; }
    assert [49] + [0] == [49, 0] && [] + [49] == [49];
  }

  /** Version 1 is in both ranges and not in the joined one, once for each of the three cases: "" and "1",
      "1 " and "1" with a "1" behind the buffer, "1" and "" with a NUL behind it. */
  lemma JoinLosesVersions(cmp: Compare)
    requires cmp([49], [49]) == 0
    ensures forall b :: InRange(cmp, [49], [], b) && InRange(cmp, [49], [49], b)
    ensures forall b :: !InRange(cmp, [49], [] + [SPACE] + [49], b)
    ensures InRange(cmp, [49], [49, SPACE], 49) && !InRange(cmp, [49], [49, SPACE] + [SPACE] + [49], 49)
    ensures InRange(cmp, [49], [], 0) && !InRange(cmp, [49], [49] + [SPACE] + [], 0)
  {
    forall b ensures InRange(cmp, [49], [49], b) && !InRange(cmp, [49], [] + [SPACE] + [49], b) {
      OneIsInRange(cmp, b);
      JoinIsConjunction(cmp, [49], [], [49], b);
    }
    OneIsInRange(cmp, 49);
    JoinIsConjunction(cmp, [49], [49], [], 49);
    assert [49] + [SPACE] + [] == [49, SPACE];
    JoinIsConjunction(cmp, [49], [49, SPACE], [49], 49);
    JoinIsConjunction(cmp, [49], [49], [], 0);
  }

  /** Space-separated non-empty requirements, spelled out. */
  function JoinAll(reqs: seq<bytes>): bytes {
    if reqs == [] then []
    else if |reqs| == 1 then reqs[0]
    else reqs[0] + [SPACE] + JoinAll(reqs[1..])
  }

  predicate Plain(req: bytes) { req != [] && SPACE !in req }

  lemma {:induction false} PlainScan(cmp: Compare, version: bytes, work: bytes, req: bytes, beyond: byte)
    requires SPACE !in req && work + req != []
    ensures Scan(cmp, version, work, req, beyond) <==> Meets(cmp, version, work + req)
    decreases |req|
  {
    if req == [] {
      assert work + req == work;
    } else {
      PlainScan(cmp, version, work + [req[0]], req[1..], beyond);
      assert work + [req[0]] + req[1..] == work + req;
    }
  }

  /** On a well-formed requirement string, being in range is meeting every requirement in it. */
  lemma {:induction false} RangeIsAllRequirements(cmp: Compare, version: bytes, reqs: seq<bytes>, beyond: byte)
    requires |version| < NAME_MAX
    requires forall q | q in reqs :: Plain(q)
    ensures InRange(cmp, version, JoinAll(reqs), beyond) <==> forall q | q in reqs :: Meets(cmp, version, q)
  {
    if reqs != [] {
      assert Plain(reqs[0]);
      PlainScan(cmp, version, [], reqs[0], beyond);
      assert [] + reqs[0] == reqs[0];
      if |reqs| > 1 {
        RangeIsAllRequirements(cmp, version, reqs[1..], beyond);
        assert Plain(reqs[1]);
        assert JoinAll(reqs[1..]) != [];
        JoinIsConjunction(cmp, version, reqs[0], JoinAll(reqs[1..]), beyond);
        assert forall q :: q in reqs <==> q == reqs[0] || q in reqs[1..];
      }
    }
  }
}
