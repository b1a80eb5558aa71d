/** The default IPC policy matcher of `ggipcd/src/ipc_authz.c`: the pattern is rewritten in place,
    with NUL standing for a wildcard, and then matched greedily segment by segment. */
module PolicyMatcher {
  import opened Buffer

  const STAR: byte := 42
  const DOLLAR: byte := 36
  const OPEN: byte := 123
  const CLOSE: byte := 125

  datatype Token = Lit(c: byte) | Any

  /** The meaning of a pattern: a literal stands for itself, `Any` for every run of bytes. */
  ghost predicate Glob(ts: seq<Token>, s: bytes)
    decreases |ts|
  {
    if ts == [] then s == []
    else match ts[0]
      case Lit(c) => s != [] && s[0] == c && Glob(ts[1..], s[1..])
      case Any => exists k: nat | k <= |s| :: Glob(ts[1..], s[k..])
  }

  /** The tokens of a policy resource: `*` is a wildcard except inside `${...}`, whose content is literal. */
  function Tokenise(p: bytes, inEscape: bool): seq<Token>
    decreases |p|
  {
    if p == [] then []
    else if inEscape then
      if p[0] == CLOSE then Tokenise(p[1..], false) else [Lit(p[0])] + Tokenise(p[1..], true)
    else if p[0] == STAR then [Any] + Tokenise(p[1..], false)
    else if p[0] == DOLLAR && |p| > 1 && p[1] == OPEN then Tokenise(p[2..], true)
    else [Lit(p[0])] + Tokenise(p[1..], false)
  }

  /** How tokens are stored in the pattern buffer: NUL is the wildcard. */
  function Store(t: Token): byte {
    if t.Any? then 0 else t.c
  }

  /** How a stored byte is read back by the search. */
  function Read(b: byte): Token {
    if b == 0 then Any else Lit(b)
  }

  function StoreAll(ts: seq<Token>): (p: bytes)
    ensures |p| == |ts|
  {
    seq(|ts|, i requires 0 <= i < |ts| => Store(ts[i]))
  }

  function ReadAll(p: bytes): (ts: seq<Token>)
    ensures |ts| == |p|
  {
    seq(|p|, i requires 0 <= i < |p| => Read(p[i]))
  }

  /** Tokenising a NUL-free pattern yields no NUL literal, so what is read back is what was stored. */
  lemma {:induction false} NulFreeTokens(p: bytes, inEscape: bool)
    requires 0 !in p
    ensures Lit(0) !in Tokenise(p, inEscape)
    ensures ReadAll(StoreAll(Tokenise(p, inEscape))) == Tokenise(p, inEscape)
    decreases |p|
  {
    if p != [] {
      NulFreeTokens(p[1..], inEscape);
      NulFreeTokens(p[1..], false);
      if |p| > 1 { NulFreeTokens(p[2..], true); }
    }
  }

  /** The matcher's answer for every pattern: what the stored pattern means when read back. */
  ghost predicate Matches(resource: bytes, pattern: bytes) {
    Glob(ReadAll(StoreAll(Tokenise(pattern, false))), resource)
  }

  /** On NUL-free patterns the matcher implements the documented meaning of the policy. */
  lemma MatchesIsGlob(resource: bytes, pattern: bytes)
    requires 0 !in pattern
    ensures Matches(resource, pattern) <==> Glob(Tokenise(pattern, false), resource)
  {
    NulFreeTokens(pattern, false);
  }

  /** A NUL byte in a pattern is the stored wildcard: `a NUL b` matches `a x b`, which its tokens do not. */
  lemma NulIsWildcard()
    ensures Matches([97, 120, 98], [97, 0, 98])
    ensures !Glob(Tokenise([97, 0, 98], false), [97, 120, 98])
  {
    hide Glob, Tokenise, StoreAll, ReadAll;
    NulTokens();
    NulGlob();
  }

  lemma NulTokens()
    ensures Tokenise([97, 0, 98], false) == [Lit(97), Lit(0), Lit(98)]
    ensures ReadAll(StoreAll([Lit(97), Lit(0), Lit(98)])) == [Lit(97), Any, Lit(98)]
  {
    var p: bytes := [97, 0, 98];
    assert p[1..] == [0, 98] && p[1..][1..] == [98] && p[1..][1..][1..] == [];
    assert Tokenise([98], false) == [Lit(98)] + Tokenise([], false) == [Lit(98)];
    assert Tokenise([0, 98], false) == [Lit(0)] + Tokenise([98], false);
  }

  lemma NulGlob()
    ensures Glob([Lit(97), Any, Lit(98)], [97, 120, 98])
    ensures !Glob([Lit(97), Lit(0), Lit(98)], [97, 120, 98])
  {
    var s: bytes := [97, 120, 98];
    var ts, us := [Lit(97), Any, Lit(98)], [Lit(97), Lit(0), Lit(98)];
    assert ts[1..] == [Any, Lit(98)] && ts[1..][1..] == [Lit(98)] && us[1..] == [Lit(0), Lit(98)];
    assert s[1..] == [120, 98] && s[1..][1..] == [98] && [98][1..] == [];
    assert Glob([Lit(98)][1..], [98][1..]);
    assert Glob([Lit(98)], s[1..][1..]);
    assert Glob([Any, Lit(98)], [120, 98]);
  }

  /** The literal bytes of a pattern, in order. */
  function Literals(ts: seq<Token>): bytes {
    if ts == [] then [] else (if ts[0].Lit? then [ts[0].c] else []) + Literals(ts[1..])
  }

  lemma {:induction false} LiteralsMatch(ts: seq<Token>)
    ensures Glob(ts, Literals(ts))
  {
    if ts != [] {
      LiteralsMatch(ts[1..]);
      var s := Literals(ts);
      if ts[0].Lit? { assert s[1..] == Literals(ts[1..]); } else { assert s[0..] == Literals(ts[1..]); }
    }
  }

  lemma {:induction false} LiteralsNeeded(ts: seq<Token>, s: bytes)
    requires Glob(ts, s)
    ensures |Literals(ts)| <= |s|
    decreases |ts|
  {
    if ts != [] {
      if ts[0].Lit? {
        LiteralsNeeded(ts[1..], s[1..]);
      } else {
        var k: nat :| k <= |s| && Glob(ts[1..], s[k..]);
        LiteralsNeeded(ts[1..], s[k..]);
      }
    }
  }

  /** What is read back has fewer literals if one of them was NUL. */
  lemma {:induction false} FewerLiterals(ts: seq<Token>)
    ensures |Literals(ReadAll(StoreAll(ts)))| <= |Literals(ts)|
    ensures Lit(0) in ts ==> |Literals(ReadAll(StoreAll(ts)))| < |Literals(ts)|
  {
    if ts != [] {
      FewerLiterals(ts[1..]);
      var us := ReadAll(StoreAll(ts));
      assert us[1..] == ReadAll(StoreAll(ts[1..]));
      assert us[0] == Read(Store(ts[0]));
      assert Lit(0) in ts <==> ts[0] == Lit(0) || Lit(0) in ts[1..] by { assert ts == [ts[0]] + ts[1..]; }
    }
  }

  lemma {:induction false} NulIsKept(p: bytes, inEscape: bool)
    requires 0 in p
    ensures Lit(0) in Tokenise(p, inEscape)
    decreases |p|
  {
    if p[0] != 0 {
      assert 0 in p[1..];
      NulIsKept(p[1..], inEscape);
      NulIsKept(p[1..], false);
      if |p| > 1 && p[1] == OPEN {
        assert p[1..][1..] == p[2..] && 0 in p[2..];
        NulIsKept(p[2..], true);
      }
    }
  }

  /** The matcher implements the documented meaning of a pattern exactly when the pattern has no NUL byte. */
  lemma NulFreeExactly(pattern: bytes)
    ensures (forall resource :: Matches(resource, pattern) <==> Glob(Tokenise(pattern, false), resource)) <==> 0 !in pattern
  {
    hide Glob, Tokenise, StoreAll, ReadAll, Literals;
    if 0 in pattern {
      var ts := Tokenise(pattern, false);
      var s := Literals(ReadAll(StoreAll(ts)));
      NulIsKept(pattern, false);
      FewerLiterals(ts);
      LiteralsMatch(ReadAll(StoreAll(ts)));
      assert Matches(s, pattern);
      if Glob(ts, s) { LiteralsNeeded(ts, s); assert false; }
    } else {
      forall resource ensures Matches(resource, pattern) <==> Glob(Tokenise(pattern, false), resource) {
        MatchesIsGlob(resource, pattern);
      }
    }
  }

  // Facts about one literal segment, as used by each step of the greedy search.

  predicate Literal(seg: bytes) { 0 !in seg }

  /** A literal segment in front must be a prefix of the resource. */
  lemma {:induction false} LiteralFirst(seg: bytes, rest: seq<Token>, s: bytes)
    requires Literal(seg)
    ensures Glob(ReadAll(seg) + rest, s) <==> HasPrefix(s, seg) && Glob(rest, s[|seg|..])
    decreases |seg|
  {
    var ts := ReadAll(seg) + rest;
    if seg == [] {
      assert ts == rest && s[0..] == s;
    } else {
      assert ts[0] == Lit(seg[0]) && ts[1..] == ReadAll(seg[1..]) + rest;
      if s != [] && s[0] == seg[0] {
        LiteralFirst(seg[1..], rest, s[1..]);
        assert HasPrefix(s, seg) <==> HasPrefix(s[1..], seg[1..]) by {
          if |seg| <= |s| { assert s[..|seg|] == [s[0]] + s[1..][..|seg| - 1] && seg == [seg[0]] + seg[1..]; }
        }
        if |seg| <= |s| { assert s[1..][|seg| - 1..] == s[|seg|..]; }
      } else if HasPrefix(s, seg) {
        assert false;
      }
    }
  }

  /** A wildcard absorbs bytes in front: if it matches a suffix, it matches the longer text. */
  lemma AnyAbsorbs(rest: seq<Token>, s: bytes, j: nat, k: nat)
    requires j <= k <= |s| && Glob([Any] + rest, s[k..])
    ensures Glob([Any] + rest, s[j..])
  {
    assert ([Any] + rest)[1..] == rest;
    var m: nat :| m <= |s[k..]| && Glob(rest, s[k..][m..]);
    assert s[k..][m..] == s[j..][k - j + m..];
  }

  /** An occurrence of a segment followed by a match of the rest is a match. */
  lemma OccurrenceMatches(seg: bytes, rest: seq<Token>, s: bytes, k: nat)
    requires Literal(seg) && OccursAt(s, seg, k) && Glob([Any] + rest, s[k + |seg|..])
    ensures Glob([Any] + ReadAll(seg) + ([Any] + rest), s)
  {
    var ts := [Any] + ReadAll(seg) + ([Any] + rest);
    assert ts[0] == Any && ts[1..] == ReadAll(seg) + ([Any] + rest);
    SegmentAt(seg, [Any] + rest, s, k);
    assert Glob(ts[1..], s[k..]);
  }

  /** Every match goes through some occurrence of the segment. */
  lemma MatchOccurs(seg: bytes, rest: seq<Token>, s: bytes) returns (k: nat)
    requires Literal(seg) && Glob([Any] + ReadAll(seg) + ([Any] + rest), s)
    ensures OccursAt(s, seg, k) && Glob([Any] + rest, s[k + |seg|..])
  {
    var ts := [Any] + ReadAll(seg) + ([Any] + rest);
    assert ts[0] == Any && ts[1..] == ReadAll(seg) + ([Any] + rest);
    k :| k <= |s| && Glob(ts[1..], s[k..]);
    SegmentAt(seg, [Any] + rest, s, k);
  }

  /** The greedy step: taking the leftmost occurrence of a segment loses no match. */
  lemma LeftmostSuffices(seg: bytes, rest: seq<Token>, s: bytes)
    requires Literal(seg)
    ensures Glob([Any] + ReadAll(seg) + ([Any] + rest), s) <==>
            Find(s, seg).Some? && Glob([Any] + rest, s[Find(s, seg).value + |seg|..])
  {
    hide Glob, ReadAll;
    if Glob([Any] + ReadAll(seg) + ([Any] + rest), s) {
      var k := MatchOccurs(seg, rest, s);
      AnyAbsorbs(rest, s, Find(s, seg).value + |seg|, k + |seg|);
    } else if Find(s, seg).Some? && Glob([Any] + rest, s[Find(s, seg).value + |seg|..]) {
      OccurrenceMatches(seg, rest, s, Find(s, seg).value);
    }
  }

  lemma SegmentAt(seg: bytes, rest: seq<Token>, s: bytes, k: nat)
    requires Literal(seg) && k <= |s|
    ensures Glob(ReadAll(seg) + rest, s[k..]) <==> OccursAt(s, seg, k) && Glob(rest, s[k + |seg|..])
  {
    LiteralFirst(seg, rest, s[k..]);
    if |seg| <= |s[k..]| { assert s[k..][|seg|..] == s[k + |seg|..]; }
  }

  /** The last segment must be a suffix of what remains. */
  lemma LastSegment(seg: bytes, s: bytes)
    requires Literal(seg)
    ensures Glob([Any] + ReadAll(seg), s) <==> HasSuffix(s, seg)
  {
    var ts := [Any] + ReadAll(seg);
    assert ts[0] == Any && ts[1..] == ReadAll(seg) && ReadAll(seg) + [] == ReadAll(seg);
    forall k: nat | k <= |s|
      ensures Glob(ReadAll(seg), s[k..]) <==> s[k..] == seg
    {
      WholeSegment(seg, s[k..]);
    }
    if HasSuffix(s, seg) { assert Glob(ts[1..], s[|s| - |seg|..]); }
  }

  /** Without a wildcard the resource must equal the pattern. */
  lemma WholeSegment(seg: bytes, s: bytes)
    requires Literal(seg)
    ensures Glob(ReadAll(seg), s) <==> s == seg
  {
    LiteralFirst(seg, [], s);
    assert ReadAll(seg) + [] == ReadAll(seg);
    if HasPrefix(s, seg) && s[|seg|..] == [] { assert s == s[..|seg|]; }
    if s == seg { assert s[..|seg|] == seg; }
  }

  /** What the tokeniser yields from offset `i` on, by the byte at that offset. */
  lemma TokenStep(p: bytes, i: nat, inEscape: bool)
    requires i < |p|
    ensures inEscape && p[i] == CLOSE ==> Tokenise(p[i..], inEscape) == Tokenise(p[i + 1..], false)
    ensures !inEscape && p[i] == DOLLAR && i + 1 < |p| && p[i + 1] == OPEN ==>
              Tokenise(p[i..], inEscape) == Tokenise(p[i + 2..], true)
    ensures !(inEscape && p[i] == CLOSE) && !(!inEscape && p[i] == DOLLAR && i + 1 < |p| && p[i + 1] == OPEN) ==>
              Tokenise(p[i..], inEscape) ==
              [if !inEscape && p[i] == STAR then Any else Lit(p[i])] + Tokenise(p[i + 1..], inEscape)
  {
    assert p[i..][1..] == p[i + 1..];
    if i + 1 < |p| { assert p[i..][2..] == p[i + 2..]; }
  }

  lemma StoreStep(done: bytes, t: Token, ts: seq<Token>)
    ensures done + StoreAll([t] + ts) == done + [Store(t)] + StoreAll(ts)
  {
  }

  method WriteByte(a: array<byte>, n: nat, c: byte) returns (next: nat)
    requires n < a.Length
    modifies a
    ensures next == n + 1 && a[..next] == old(a[..n]) + [c]
    ensures forall k | n < k < a.Length :: a[k] == old(a[k])
  {
    a[n] := c;
    next := n + 1;
  }

  /** First loop: rewrites the pattern in place; the rewritten prefix is the stored token sequence. */
  method RewritePattern(pattern: array<byte>) returns (n: nat)
    modifies pattern
    ensures n <= pattern.Length
    ensures pattern[..n] == StoreAll(Tokenise(old(pattern[..]), false))
  {
    ghost var p := pattern[..];
    var inEscape := false;
    n := 0;
    var i := 0;
    assert p[0..] == p && pattern[..0] == [];
    assert Tokenise([], true) == [] && Tokenise([], false) == [];
    hide StoreAll, Tokenise, Store;
    while i < pattern.Length
      invariant n <= i <= pattern.Length
      invariant forall k | i <= k < pattern.Length :: pattern[k] == p[k]
      invariant StoreAll(Tokenise(p, false)) == pattern[..n] + StoreAll(Tokenise(p[i..], inEscape))
    {
      var c := pattern[i];
      TokenStep(p, i, inEscape);
      if inEscape && c == CLOSE {
        inEscape := false;
      } else if !inEscape && c == DOLLAR && i + 1 < pattern.Length && pattern[i + 1] == OPEN {
        inEscape := true;
        i := i + 1;
      } else {
        var t := if !inEscape && c == STAR then Any else Lit(c);
        StoreStep(pattern[..n], t, Tokenise(p[i + 1..], inEscape));
        n := WriteByte(pattern, n, Store(t));
      }
      i := i + 1;
    }
    assert p[i..] == [];
  }

  /** What is left to match once the segments before `start` have been consumed. */
  ghost predicate Pending(pat: bytes, start: nat, remaining: bytes)
    requires start <= |pat|
  {
    Glob((if start == 0 then [] else [Any]) + ReadAll(pat[start..]), remaining)
  }

  lemma PendingStart(pat: bytes, resource: bytes)
    ensures Pending(pat, 0, resource) <==> Glob(ReadAll(pat), resource)
  {
    hide Glob;
    assert pat[0..] == pat && [] + ReadAll(pat) == ReadAll(pat);
  }

  lemma PendingStep(pat: bytes, start: nat, i: nat, remaining: bytes)
    requires start <= i < |pat| && pat[i] == 0 && Literal(pat[start..i])
    ensures start == 0 ==>
              (Pending(pat, start, remaining) <==>
               HasPrefix(remaining, pat[..i]) && Pending(pat, i + 1, remaining[i..]))
    ensures start != 0 ==>
              (Pending(pat, start, remaining) <==>
               var found := Find(remaining, pat[start..i]);
               found.Some? && Pending(pat, i + 1, remaining[found.value + i - start..]))
  {
    hide Glob;
    var segment := pat[start..i];
    var rest := ReadAll(pat[i + 1..]);
    assert ReadAll(pat[start..]) == ReadAll(segment) + ([Any] + rest);
    if start == 0 {
      assert [] + ReadAll(pat[start..]) == ReadAll(pat[start..]);
      LiteralFirst(segment, [Any] + rest, remaining);
      assert segment == pat[..i];
    } else {
      assert [Any] + ReadAll(pat[start..]) == [Any] + ReadAll(segment) + ([Any] + rest);
      LeftmostSuffices(segment, rest, remaining);
    }
  }

  lemma PendingEnd(pat: bytes, start: nat, remaining: bytes)
    requires start <= |pat| && Literal(pat[start..])
    ensures Pending(pat, start, remaining) <==>
            if start == 0 then remaining == pat else HasSuffix(remaining, pat[start..])
  {
    assert [] + ReadAll(pat[start..]) == ReadAll(pat[start..]) && pat[0..] == pat;
    WholeSegment(pat[start..], remaining);
    LastSegment(pat[start..], remaining);
  }

  /** Second loop: prefix for the first segment, leftmost occurrence for the others, suffix for the last. */
  method GreedySearch(resource: bytes, pat: bytes) returns (matched: bool)
    ensures matched <==> Glob(ReadAll(pat), resource)
  {
    PendingStart(pat, resource);
    hide Glob, Pending, ReadAll;
    var remaining := resource;
    var start := 0;
    var i := 0;
    while i < |pat|
      invariant start <= i <= |pat|
      invariant Literal(pat[start..i])
      invariant Glob(ReadAll(pat), resource) <==> Pending(pat, start, remaining)
    {
      if pat[i] == 0 {
        PendingStep(pat, start, i, remaining);
        var segment := pat[start..i];
        var matchStart := 0;
        if start == 0 {
          if !HasPrefix(remaining, segment) { return false; }
        } else {
          var found := Find(remaining, segment);
          if found.None? { return false; }
          matchStart := found.value;
        }
        remaining := remaining[matchStart + |segment|..];
        start := i + 1;
      } else {
        assert pat[start..i + 1] == pat[start..i] + [pat[i]];
      }
      i := i + 1;
    }
    assert pat[start..i] == pat[start..];
    PendingEnd(pat, start, remaining);
    return if start == 0 then remaining == pat else HasSuffix(remaining, pat[start..]);
  }

  /** `ggl_ipc_default_policy_matcher`. */
  method DefaultPolicyMatcher(resource: bytes, pattern: array<byte>) returns (matched: bool)
    modifies pattern
    ensures matched <==> Matches(resource, old(pattern[..]))
    ensures 0 !in old(pattern[..]) ==> (matched <==> Glob(Tokenise(old(pattern[..]), false), resource))
  {
    if 0 !in pattern[..] { MatchesIsGlob(resource, pattern[..]); }
    var n := RewritePattern(pattern);
    matched := GreedySearch(resource, pattern[..n]);
  }

  /** One value under a component's `accessControl` entry, as read afresh from the configuration. */
  datatype PolicyEntry =
    | NotMap
    | BadFields
    | Policy(operations: seq<bytes>, resources: seq<bytes>)

  datatype AuthResult = Ok | Failure | NoEntry | Config | ReadFailed

  /** What a policy entry grants: the operation is listed and some listed resource pattern matches. */
  ghost predicate Grants(entry: PolicyEntry, operation: bytes, resource: bytes) {
    entry.Policy? && operation in entry.operations && exists p | p in entry.resources :: Matches(resource, p)
  }

  /** The pattern `*` matches everything, so comparing with it first is only a shortcut. */
  lemma StarMatchesAll(resource: bytes)
    ensures Matches(resource, [STAR])
  {
    assert Tokenise([STAR], false) == [Any] + Tokenise([], false) == [Any];
    var ts := ReadAll(StoreAll([Any]));
    assert ts == [Any];
    assert Glob(ts[1..], resource[|resource|..]);
  }

  /** `policy_match` with the default matcher. */
  method PolicyMatch(entry: PolicyEntry, operation: bytes, resource: bytes) returns (r: AuthResult)
    requires !entry.NotMap?
    ensures r == Ok <==> Grants(entry, operation, resource)
    ensures r == Config <==> entry.BadFields?
    ensures r == NoEntry <==> entry.Policy? && operation !in entry.operations
    ensures r != ReadFailed
  {
    if entry.BadFields? { return Config; }
    if operation !in entry.operations { return NoEntry; }
    StarMatchesAll(resource);
    for i := 0 to |entry.resources|
      invariant forall j | 0 <= j < i :: !Matches(resource, entry.resources[j])
    {
      var p := entry.resources[i];
      var matched := p == [STAR];
      if !matched {
        var pattern := new byte[|p|](k requires 0 <= k < |p| => p[k]);
        assert pattern[..] == p;
        matched := DefaultPolicyMatcher(resource, pattern);
      }
      if matched {
        assert p in entry.resources;
        return Ok;
      }
    }
    return Failure;
  }

  /** What reading a component's access control yields: nothing, something that is not a map, or its policies. */
  datatype Policies = Unread | NotAMap | Policies(entries: seq<PolicyEntry>)

  /** `ggl_ipc_auth`: a request is allowed exactly when some policy grants it and no entry before it is not a map. It
      is refused as misconfigured exactly when the access control is not a map or such an entry comes before any
      policy that grants it; with the error of the read if there is nothing to read. */
  method Auth(policies: Policies, operation: bytes, resource: bytes) returns (r: AuthResult)
    ensures r == ReadFailed <==> policies.Unread?
    ensures r == Ok <==>
            policies.Policies? &&
            exists i | 0 <= i < |policies.entries| ::
              Grants(policies.entries[i], operation, resource) && forall j | 0 <= j < i :: !policies.entries[j].NotMap?
    ensures r == Config <==>
            policies.NotAMap? ||
            (policies.Policies? &&
             exists i | 0 <= i < |policies.entries| ::
               policies.entries[i].NotMap? && forall j | 0 <= j < i :: !Grants(policies.entries[j], operation, resource))
    ensures r != Failure
  {
    if policies.Unread? { return ReadFailed; }
    if policies.NotAMap? { return Config; }
    var entries := policies.entries;
    for i := 0 to |entries|
      invariant forall j | 0 <= j < i :: !entries[j].NotMap? && !Grants(entries[j], operation, resource)
    {
      if entries[i].NotMap? { return Config; }
      var m := PolicyMatch(entries[i], operation, resource);
      if m == Ok { return Ok; }
    }
    return NoEntry;
  }
}
