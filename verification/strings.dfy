/** The Rust `str` operations the converter is built from, with Rust's semantics:
    `char::is_whitespace`, `trim`, `trim_end`, `split` and `replace` on a string
    pattern (left-to-right, non-overlapping; an empty pattern matches at every
    char boundary). Dafny `char` is a Unicode scalar value, like Rust's `char`. */
module Strings {

  /** The Unicode White_Space property, which `char::is_whitespace` tests. */
  predicate IsWhitespace(c: char)
  {
    || ('\t' <= c <= '\r') || c == ' ' || c == '\U{0085}' || c == '\U{00A0}'
    || c == '\U{1680}' || ('\U{2000}' <= c <= '\U{200A}') || c == '\U{2028}'
    || c == '\U{2029}' || c == '\U{202F}' || c == '\U{205F}' || c == '\U{3000}'
  }

  datatype Option<T> = None | Some(value: T)

  predicate IsAsciiDigit(c: char) { '0' <= c <= '9' }

  predicate IsAsciiLetter(c: char) { ('a' <= c <= 'z') || ('A' <= c <= 'Z') }

  predicate AllAsciiDigits(s: string) { forall i :: 0 <= i < |s| ==> IsAsciiDigit(s[i]) }

  // ---------------------------------------------------------------------------
  // Trimming

  /** `str::trim_end`: the longest prefix that does not end in whitespace. */
  function TrimEnd(s: string): (r: string)
    ensures r <= s
    ensures r == [] || !IsWhitespace(r[|r| - 1])
    ensures forall i :: |r| <= i < |s| ==> IsWhitespace(s[i])
    decreases |s|
  {
    if s == [] || !IsWhitespace(s[|s| - 1]) then s else TrimEnd(s[..|s| - 1])
  }

  /** `str::trim_start`: the longest suffix that does not start with whitespace. */
  function TrimStart(s: string): (r: string)
    ensures |r| <= |s| && r == s[|s| - |r|..]
    ensures r == [] || !IsWhitespace(r[0])
    ensures forall i :: 0 <= i < |s| - |r| ==> IsWhitespace(s[i])
    decreases |s|
  {
    if s == [] || !IsWhitespace(s[0]) then s else TrimStart(s[1..])
  }

  /** `str::trim`: whitespace removed at both ends. */
  function Trim(s: string): (r: string)
    ensures |r| <= |s|
    ensures r == [] || (!IsWhitespace(r[0]) && !IsWhitespace(r[|r| - 1]))
  {
    TrimEnd(TrimStart(s))
  }

  /** What `trim` keeps is a slice of its input, so it has no char the input lacks. */
  lemma TrimKeepsChars(s: string)
    ensures forall c :: c in Trim(s) ==> c in s
  {
    var t := TrimStart(s);
    var r := TrimEnd(t);
    forall k | 0 <= k < |r|
      ensures r[k] in s
    {
      assert r[k] == t[k] == s[|s| - |t| + k];
    }
  }

  lemma TrimOfTrimmed(s: string)
    requires s == [] || (!IsWhitespace(s[0]) && !IsWhitespace(s[|s| - 1]))
    ensures Trim(s) == s
  {
  }

  lemma TrimEndDropsWhitespace(s: string, w: char)
    requires IsWhitespace(w)
    ensures TrimEnd(s + [w]) == TrimEnd(s)
  {
    assert (s + [w])[..|s + [w]| - 1] == s;
  }

  // ---------------------------------------------------------------------------
  // Regrouping concatenations

  lemma AppendAssoc<T>(a: seq<T>, b: seq<T>, c: seq<T>)
    ensures (a + b) + c == a + (b + c)
  {
  }

  lemma TakeDrop<T>(s: seq<T>, i: nat)
    requires i <= |s|
    ensures s == s[..i] + s[i..]
  {
  }

  lemma DropSplit<T>(s: seq<T>, i: nat, j: nat)
    requires i <= j <= |s|
    ensures s[i..] == s[i..j] + s[j..]
  {
  }

  // ---------------------------------------------------------------------------
  // Occurrences of a pattern

  /** `f` occurs in `s` starting at index `i`. */
  predicate OccursAt(s: string, i: nat, f: string)
  {
    i + |f| <= |s| && s[i..i + |f|] == f
  }

  predicate Contains(s: string, f: string)
  {
    exists i: nat | i <= |s| :: OccursAt(s, i, f)
  }

  lemma NotContainsChar(s: string, c: char)
    requires c !in s
    ensures !Contains(s, [c])
  {
    forall i: nat | i + 1 <= |s|
      ensures !OccursAt(s, i, [c])
    {
      assert s[i..i + 1] == [s[i]];
    }
  }

  lemma NotContainsShorter(s: string, f: string)
    requires |s| < |f|
    ensures !Contains(s, f)
  {
  }

  /** An occurrence in a suffix is an occurrence in the whole string. */
  lemma OccursInSuffix(s: string, k: nat, i: nat, f: string)
    requires k <= |s|
    requires OccursAt(s[k..], i, f)
    ensures OccursAt(s, k + i, f)
  {
    var a := s[k..][i..i + |f|];
    var b := s[k + i..k + i + |f|];
    assert forall j :: 0 <= j < |f| ==> a[j] == b[j];
    assert a == b;
  }

  /** An occurrence in a prefix is an occurrence in the whole string. */
  lemma OccursInPrefix(s: string, k: nat, i: nat, f: string)
    requires k <= |s|
    requires OccursAt(s[..k], i, f)
    ensures OccursAt(s, i, f)
  {
    var a := s[..k][i..i + |f|];
    var b := s[i..i + |f|];
    assert forall j :: 0 <= j < |f| ==> a[j] == b[j];
    assert a == b;
  }

  lemma NotContainsSuffix(s: string, k: nat, f: string)
    requires k <= |s| && !Contains(s, f)
    ensures !Contains(s[k..], f)
  {
    forall i: nat | OccursAt(s[k..], i, f)
      ensures false
    {
      OccursInSuffix(s, k, i, f);
    }
  }

  // ---------------------------------------------------------------------------
  // split / join

  /** One single-character string per char of `s`. */
  function Chars(s: string): (r: seq<string>)
    ensures |r| == |s|
    ensures forall i :: 0 <= i < |s| ==> r[i] == [s[i]]
  {
    seq(|s|, i requires 0 <= i < |s| => [s[i]])
  }

  /** `str::split` with a string pattern, collected into a vector. An empty
      pattern matches at every char boundary, so "ab" splits into "", "a", "b", "". */
  function Split(s: string, sep: string): (parts: seq<string>)
    ensures |parts| >= 1 && parts[0] <= s
    decreases |s|
  {
    if sep == [] then [[]] + Chars(s) + [[]]
    else if |s| < |sep| then [s]
    else if s[..|sep|] == sep then [[]] + Split(s[|sep|..], sep)
    else
      var rest := Split(s[1..], sep);
      [[s[0]] + rest[0]] + rest[1..]
  }

  /** The lines a `(?m)` regex sees: `^` and `$` match only around '\n'. */
  function Lines(s: string): seq<string>
  {
    Split(s, "\n")
  }

  /** `[&str]::join`: the parts with `sep` between consecutive ones. */
  function Join(parts: seq<string>, sep: string): string
  {
    if |parts| == 0 then []
    else if |parts| == 1 then parts[0]
    else parts[0] + sep + Join(parts[1..], sep)
  }

  /** Every part followed by `sep`; the text `get_vcards` keeps of a file. */
  function Terminated(parts: seq<string>, sep: string): string
  {
    if |parts| == 0 then [] else parts[0] + sep + Terminated(parts[1..], sep)
  }

  lemma JoinCons(p: string, rest: seq<string>, sep: string)
    requires |rest| >= 1
    ensures Join([p] + rest, sep) == p + sep + Join(rest, sep)
  {
    assert ([p] + rest)[1..] == rest;
  }

  lemma JoinIsTerminatedPlusLast(parts: seq<string>, sep: string)
    requires |parts| >= 1
    ensures Join(parts, sep) == Terminated(parts[..|parts| - 1], sep) + parts[|parts| - 1]
    decreases |parts|
  {
    if |parts| > 1 {
      JoinIsTerminatedPlusLast(parts[1..], sep);
      assert parts[1..][..|parts[1..]| - 1] == parts[..|parts| - 1][1..];
    }
  }

  lemma TerminatedAppend(parts: seq<string>, sep: string, tail: string)
    ensures Terminated(parts, sep) + tail == Join(parts + [tail], sep)
    decreases |parts|
  {
    if |parts| > 0 {
      TerminatedAppend(parts[1..], sep, tail);
      assert (parts + [tail])[1..] == parts[1..] + [tail];
    }
  }

  // ---------------------------------------------------------------------------
  // replace

  /** `str::replace`: every non-overlapping occurrence of `from`, scanning left to
      right, replaced by `to`. An empty `from` inserts `to` at every char boundary. */
  function ReplaceAll(s: string, from: string, to: string): string
    decreases |s|
  {
    if from == [] then
      (if s == [] then to else to + [s[0]] + ReplaceAll(s[1..], from, to))
    else if |s| < |from| then s
    else if s[..|from|] == from then to + ReplaceAll(s[|from|..], from, to)
    else [s[0]] + ReplaceAll(s[1..], from, to)
  }

  /** Rust implements `replace` as "join the split pieces with the replacement";
      the two definitions agree on every input, including the empty pattern. */
  lemma {:induction false} ReplaceAllIsJoinOfSplit(s: string, from: string, to: string)
    ensures ReplaceAll(s, from, to) == Join(Split(s, from), to)
    decreases |s|
  {
    if from == [] {
      ReplaceEmptyIsJoin(s, to);
    } else if |s| < |from| {
    } else if s[..|from|] == from {
      ReplaceAllIsJoinOfSplit(s[|from|..], from, to);
      JoinCons([], Split(s[|from|..], from), to);
    } else {
      ReplaceAllIsJoinOfSplit(s[1..], from, to);
      ReplaceJoinStep(s, from, to);
    }
  }

  lemma ReplaceJoinStep(s: string, from: string, to: string)
    requires from != [] && |s| >= |from| && s[..|from|] != from
    requires ReplaceAll(s[1..], from, to) == Join(Split(s[1..], from), to)
    ensures ReplaceAll(s, from, to) == Join(Split(s, from), to)
  {
    var rest := Split(s[1..], from);
    SplitNoFront(s, from);
    ReplaceNoFront(s, from, to);
    JoinPrependChar(s[0], rest, to);
  }

  lemma SplitNoFront(s: string, sep: string)
    requires sep != [] && |s| >= |sep| && s[..|sep|] != sep
    ensures var rest := Split(s[1..], sep);
      Split(s, sep) == [[s[0]] + rest[0]] + rest[1..]
  {
  }

  lemma JoinPrependChar(c: char, parts: seq<string>, sep: string)
    requires |parts| >= 1
    ensures Join([[c] + parts[0]] + parts[1..], sep) == [c] + Join(parts, sep)
  {
    if |parts| > 1 {
      assert parts == [parts[0]] + parts[1..];
      JoinCons(parts[0], parts[1..], sep);
      JoinCons([c] + parts[0], parts[1..], sep);
    }
  }

  lemma {:induction false} ReplaceEmptyIsJoin(s: string, to: string)
    ensures ReplaceAll(s, [], to) == Join([[]] + Chars(s) + [[]], to)
    decreases |s|
  {
    if s == [] {
      assert [[]] + Chars(s) + [[]] == [[], []];
    } else {
      ReplaceEmptyIsJoin(s[1..], to);
      var tail := Chars(s[1..]) + [[]];
      assert Chars(s) == [[s[0]]] + Chars(s[1..]);
      assert [[]] + Chars(s) + [[]] == [[]] + ([[s[0]]] + tail);
      assert [[]] + Chars(s[1..]) + [[]] == [[]] + tail;
      JoinCons([], [[s[0]]] + tail, to);
      JoinCons([s[0]], tail, to);
      JoinCons([], tail, to);
    }
  }

  lemma {:induction false} ReplaceBySelf(s: string, f: string)
    ensures ReplaceAll(s, f, f) == s
    decreases |s|
  {
    if f == [] {
      if s != [] { ReplaceBySelf(s[1..], f); }
    } else if |s| < |f| {
    } else if s[..|f|] == f {
      ReplaceBySelf(s[|f|..], f);
      assert s == s[..|f|] + s[|f|..];
    } else {
      ReplaceBySelf(s[1..], f);
      assert s == [s[0]] + s[1..];
    }
  }

  /** Joining the pieces of a split with the separator gives back the input. */
  lemma SplitJoin(s: string, sep: string)
    ensures Join(Split(s, sep), sep) == s
  {
    ReplaceAllIsJoinOfSplit(s, sep, sep);
    ReplaceBySelf(s, sep);
  }

  /** No piece of a split contains the (non-empty) separator. */
  lemma {:induction false} SplitPiecesAvoidSep(s: string, sep: string)
    requires sep != []
    ensures forall i :: 0 <= i < |Split(s, sep)| ==> !Contains(Split(s, sep)[i], sep)
    decreases |s|
  {
    var parts := Split(s, sep);
    if |s| < |sep| {
      NotContainsShorter(s, sep);
    } else if s[..|sep|] == sep {
      SplitPiecesAvoidSep(s[|sep|..], sep);
      assert !Contains([], sep);
    } else {
      var rest := Split(s[1..], sep);
      SplitPiecesAvoidSep(s[1..], sep);
      var p := [s[0]] + rest[0];
      assert p <= s;
      forall i: nat | i <= |p|
        ensures !OccursAt(p, i, sep)
      {
        if i == 0 {
          if |p| >= |sep| {
            assert p[..|sep|] == s[..|sep|];
          }
        } else if i + |sep| <= |p| {
          assert p[i..i + |sep|] == rest[0][i - 1..i - 1 + |sep|];
          assert !OccursAt(rest[0], i - 1, sep);
        }
      }
      assert parts == [p] + rest[1..];
    }
  }

  /** A string without the separator splits into itself alone. */
  lemma {:induction false} SplitWithoutSep(s: string, sep: string)
    requires sep != [] && !Contains(s, sep)
    ensures Split(s, sep) == [s]
    decreases |s|
  {
    if |s| < |sep| {
    } else {
      assert !OccursAt(s, 0, sep);
      NotContainsSuffix(s, 1, sep);
      SplitWithoutSep(s[1..], sep);
      assert [s[0]] + s[1..] == s;
    }
  }

  /** The separator has no proper border when its first char does not recur in it;
      then a chunk free of the separator, followed by the separator, always ends
      the first piece. */
  lemma {:induction false} SplitChunk(b: string, sep: string, rest: string)
    requires sep != [] && sep[0] !in sep[1..]
    requires !Contains(b, sep)
    ensures Split(b + sep + rest, sep) == [b] + Split(rest, sep)
    decreases |b|
  {
    if b == [] {
      SplitAtSep(sep, rest);
    } else {
      NotContainsSuffix(b, 1, sep);
      SplitChunk(b[1..], sep, rest);
      ChunkNoFront(b, sep, rest);
      SplitChunkStep(b, sep, rest);
    }
  }

  lemma SplitChunkStep(b: string, sep: string, rest: string)
    requires sep != [] && b != []
    requires |b + sep + rest| >= |sep| && (b + sep + rest)[..|sep|] != sep
    requires Split(b[1..] + sep + rest, sep) == [b[1..]] + Split(rest, sep)
    ensures Split(b + sep + rest, sep) == [b] + Split(rest, sep)
  {
    var s := b + sep + rest;
    ConsRegroup(b, sep, rest);
    SplitConsStep(s, b, sep, rest);
  }

  lemma ConsRegroup(b: string, sep: string, rest: string)
    requires b != []
    ensures (b + sep + rest)[0] == b[0]
    ensures (b + sep + rest)[1..] == b[1..] + sep + rest
  {
    assert b == [b[0]] + b[1..];
    AppendAssoc([b[0]], b[1..], sep);
    AppendAssoc([b[0]], b[1..] + sep, rest);
  }

  lemma SplitConsStep(s: string, b: string, sep: string, rest: string)
    requires sep != [] && b != [] && |s| >= |sep| && s[..|sep|] != sep
    requires s[0] == b[0]
    requires Split(s[1..], sep) == [b[1..]] + Split(rest, sep)
    ensures Split(s, sep) == [b] + Split(rest, sep)
  {
    SplitNoFront(s, sep);
    assert [s[0]] + b[1..] == b;
  }

  lemma SplitAtSep(sep: string, rest: string)
    requires sep != []
    ensures Split([] + sep + rest, sep) == [[]] + Split(rest, sep)
  {
    var s := [] + sep + rest;
    assert s[..|sep|] == sep;
    assert s[|sep|..] == rest;
  }

  /** A non-empty chunk free of a border-free separator does not start with it,
      even when the separator that follows the chunk is counted. */
  lemma ChunkNoFront(b: string, sep: string, rest: string)
    requires sep != [] && sep[0] !in sep[1..]
    requires b != [] && !Contains(b, sep)
    ensures |b + sep + rest| >= |sep| && (b + sep + rest)[..|sep|] != sep
  {
    var s := b + sep + rest;
    if |b| >= |sep| {
      assert s[..|sep|] == b[..|sep|];
      assert !OccursAt(b, 0, sep);
    } else {
      assert s[..|sep|][|b|] == sep[0];
      assert sep[1..][|b| - 1] == sep[|b|];
      assert s[..|sep|][|b|] != sep[|b|];
    }
  }

  /** Splitting pieces that were terminated by a border-free separator, followed by
      a tail free of it, recovers the pieces and the tail. */
  lemma {:induction false} SplitTerminated(parts: seq<string>, sep: string, tail: string)
    requires sep != [] && sep[0] !in sep[1..]
    requires forall i :: 0 <= i < |parts| ==> !Contains(parts[i], sep)
    requires !Contains(tail, sep)
    ensures Split(Terminated(parts, sep) + tail, sep) == parts + [tail]
    decreases |parts|
  {
    if |parts| == 0 {
      assert Terminated(parts, sep) + tail == tail;
      SplitWithoutSep(tail, sep);
    } else {
      SplitTerminated(parts[1..], sep, tail);
      assert Terminated(parts, sep) + tail == parts[0] + sep + (Terminated(parts[1..], sep) + tail);
      SplitChunk(parts[0], sep, Terminated(parts[1..], sep) + tail);
      assert parts + [tail] == [parts[0]] + (parts[1..] + [tail]);
    }
  }

  /** Split and join by one char are inverse when no part holds that char. */
  lemma {:induction false} SplitJoinChar(parts: seq<string>, c: char)
    requires |parts| >= 1
    requires forall i :: 0 <= i < |parts| ==> c !in parts[i]
    ensures Split(Join(parts, [c]), [c]) == parts
    decreases |parts|
  {
    NotContainsChar(parts[0], c);
    if |parts| == 1 {
      SplitWithoutSep(parts[0], [c]);
    } else {
      SplitJoinChar(parts[1..], c);
      SplitChunk(parts[0], [c], Join(parts[1..], [c]));
      assert parts == [parts[0]] + parts[1..];
    }
  }

  lemma {:induction false} JoinAppend(p: seq<string>, q: seq<string>, sep: string)
    requires |p| >= 1 && |q| >= 1
    ensures Join(p + q, sep) == Join(p, sep) + sep + Join(q, sep)
    decreases |p|
  {
    if |p| == 1 {
      JoinCons(p[0], q, sep);
      assert p + q == [p[0]] + q;
    } else {
      JoinAppend(p[1..], q, sep);
      assert (p + q)[1..] == p[1..] + q;
    }
  }

  /** Text joined at one separator char splits into the pieces of each side. */
  lemma SplitAtChar(a: string, c: char, b: string)
    ensures Split(a + [c] + b, [c]) == Split(a, [c]) + Split(b, [c])
  {
    var p, q := Split(a, [c]), Split(b, [c]);
    SplitJoin(a, [c]);
    SplitJoin(b, [c]);
    SplitCharPieces(a, c);
    SplitCharPieces(b, c);
    JoinAppend(p, q, [c]);
    SplitJoinChar(p + q, c);
  }

  /** No piece of a split by one char contains that char. */
  lemma SplitCharPieces(s: string, c: char)
    ensures forall i :: 0 <= i < |Split(s, [c])| ==> c !in Split(s, [c])[i]
  {
    SplitPiecesAvoidSep(s, [c]);
    forall i | 0 <= i < |Split(s, [c])|
      ensures c !in Split(s, [c])[i]
    {
      var p := Split(s, [c])[i];
      if c in p {
        var k :| 0 <= k < |p| && p[k] == c;
        assert OccursAt(p, k, [c]);
      }
    }
  }

  // ---------------------------------------------------------------------------
  // Facts about `replace` used to evaluate it on templates

  lemma ReplaceEmptyInput(from: string, to: string)
    requires from != []
    ensures ReplaceAll([], from, to) == []
  {
  }

  /** With no occurrence at the front, the first char is copied. */
  lemma ReplaceNoFront(s: string, from: string, to: string)
    requires from != [] && s != [] && (|s| < |from| || s[..|from|] != from)
    ensures ReplaceAll(s, from, to) == [s[0]] + ReplaceAll(s[1..], from, to)
  {
    if |s| < |from| {
      assert ReplaceAll(s[1..], from, to) == s[1..];
      assert s == [s[0]] + s[1..];
    }
  }

  /** A mismatch at offset `k` means no occurrence at the front. */
  lemma ReplaceMiss(s: string, k: nat, from: string, to: string)
    requires from != [] && k < |s| && k < |from| && s[k] != from[k]
    ensures ReplaceAll(s, from, to) == [s[0]] + ReplaceAll(s[1..], from, to)
  {
    if |s| >= |from| {
      assert s[..|from|][k] != from[k];
    }
    ReplaceNoFront(s, from, to);
  }

  /** A chunk that does not contain the first char of the pattern is copied. */
  lemma {:induction false} ReplaceSkip(a: string, b: string, from: string, to: string)
    requires from != [] && from[0] !in a
    ensures ReplaceAll(a + b, from, to) == a + ReplaceAll(b, from, to)
    decreases |a|
  {
    if a == [] {
      assert a + b == b;
    } else {
      var s := a + b;
      assert s[0] == a[0];
      ReplaceMiss(s, 0, from, to);
      assert s[1..] == a[1..] + b;
      ReplaceSkip(a[1..], b, from, to);
      assert a == [a[0]] + a[1..];
    }
  }

  /** A string without the first char of the pattern is left as it is. */
  lemma ReplaceAbsent(s: string, from: string, to: string)
    requires from != [] && from[0] !in s
    ensures ReplaceAll(s, from, to) == s
  {
    ReplaceSkip(s, [], from, to);
    assert s + [] == s;
  }

  /** An occurrence at the front is replaced. */
  lemma ReplaceHit(b: string, from: string, to: string)
    requires from != []
    ensures ReplaceAll(from + b, from, to) == to + ReplaceAll(b, from, to)
  {
    var s := from + b;
    assert s[..|from|] == from;
    assert s[|from|..] == b;
  }

  /** Text without an occurrence of the pattern is left as it is. */
  lemma {:induction false} ReplaceNotContained(s: string, from: string, to: string)
    requires !Contains(s, from)
    ensures ReplaceAll(s, from, to) == s
    decreases |s|
  {
    assert OccursAt(s, 0, []);
    if |s| >= |from| {
      assert !OccursAt(s, 0, from);
      NotContainsSuffix(s, 1, from);
      ReplaceNotContained(s[1..], from, to);
      assert s == [s[0]] + s[1..];
    }
  }

  /** A char the pattern does not hold cuts the text: no occurrence spans it. */
  lemma {:induction false} ReplaceAroundChar(a: string, c: char, b: string, from: string, to: string)
    requires from != [] && c !in from
    ensures ReplaceAll(a + [c] + b, from, to)
         == ReplaceAll(a, from, to) + [c] + ReplaceAll(b, from, to)
    decreases |a|
  {
    var s := a + [c] + b;
    if a == [] {
      assert s == [c] + b;
      ReplaceMiss(s, 0, from, to);
      assert s[1..] == b;
    } else if |s| >= |from| && s[..|from|] == from {
      PatternBeforeChar(a, c, b, from);
      ReplaceAroundChar(a[|from|..], c, b, from, to);
      AroundCharHit(a, c, b, from, to);
    } else {
      ReplaceAroundChar(a[1..], c, b, from, to);
      AroundCharMiss(a, c, b, from, to);
    }
  }

  lemma AroundCharHit(a: string, c: char, b: string, from: string, to: string)
    requires from != [] && |from| <= |a| && (a + [c] + b)[..|from|] == from
    requires ReplaceAll(a[|from|..] + [c] + b, from, to)
          == ReplaceAll(a[|from|..], from, to) + [c] + ReplaceAll(b, from, to)
    ensures ReplaceAll(a + [c] + b, from, to)
         == ReplaceAll(a, from, to) + [c] + ReplaceAll(b, from, to)
  {
    HitBothFronts(a, c, b, from, to);
  }

  lemma AroundCharMiss(a: string, c: char, b: string, from: string, to: string)
    requires from != [] && a != []
    requires !(|a + [c] + b| >= |from| && (a + [c] + b)[..|from|] == from)
    requires ReplaceAll(a[1..] + [c] + b, from, to)
          == ReplaceAll(a[1..], from, to) + [c] + ReplaceAll(b, from, to)
    ensures ReplaceAll(a + [c] + b, from, to)
         == ReplaceAll(a, from, to) + [c] + ReplaceAll(b, from, to)
  {
    MissBothFronts(a, c, b, from, to);
  }

  /** An occurrence at the front is an occurrence at the front of the longer text. */
  lemma HitBothFronts(a: string, c: char, b: string, from: string, to: string)
    requires from != [] && |from| <= |a| && (a + [c] + b)[..|from|] == from
    ensures ReplaceAll(a + [c] + b, from, to) == to + ReplaceAll(a[|from|..] + [c] + b, from, to)
    ensures ReplaceAll(a, from, to) == to + ReplaceAll(a[|from|..], from, to)
  {
    var s := a + [c] + b;
    assert a[..|from|] == s[..|from|];
    assert s[|from|..] == a[|from|..] + [c] + b;
  }

  /** Without an occurrence at the front, the first char is copied, in the longer
      text and in its part before `c` alike. */
  lemma MissBothFronts(a: string, c: char, b: string, from: string, to: string)
    requires from != [] && a != []
    requires !(|a + [c] + b| >= |from| && (a + [c] + b)[..|from|] == from)
    ensures ReplaceAll(a + [c] + b, from, to) == [a[0]] + ReplaceAll(a[1..] + [c] + b, from, to)
    ensures ReplaceAll(a, from, to) == [a[0]] + ReplaceAll(a[1..], from, to)
  {
    var s := a + [c] + b;
    assert s[1..] == a[1..] + [c] + b;
    if |a| >= |from| {
      assert a[..|from|] == s[..|from|];
    } else {
      NotContainsShorter(a, from);
      ReplaceNotContained(a, from, to);
      NotContainsShorter(a[1..], from);
      ReplaceNotContained(a[1..], from, to);
      assert a == [a[0]] + a[1..];
    }
  }

  /** An occurrence at the front ends before any char the pattern lacks. */
  lemma PatternBeforeChar(a: string, c: char, b: string, from: string)
    requires c !in from && |from| <= |a + [c] + b| && (a + [c] + b)[..|from|] == from
    ensures |from| <= |a|
  {
    var s := a + [c] + b;
    assert s[|a|] == c;
    assert forall i :: 0 <= i < |from| ==> from[i] == s[i];
  }

  /** `replace` applied to every part. */
  function ReplaceEach(parts: seq<string>, from: string, to: string): (r: seq<string>)
    ensures |r| == |parts|
    ensures forall i :: 0 <= i < |parts| ==> r[i] == ReplaceAll(parts[i], from, to)
  {
    seq(|parts|, i requires 0 <= i < |parts| => ReplaceAll(parts[i], from, to))
  }

  /** Replacing a pattern that holds no `c` acts on each `c`-separated piece. */
  lemma {:induction false} ReplacePieces(parts: seq<string>, c: char, from: string, to: string)
    requires from != [] && c !in from
    ensures ReplaceAll(Join(parts, [c]), from, to) == Join(ReplaceEach(parts, from, to), [c])
    decreases |parts|
  {
    var mapped := ReplaceEach(parts, from, to);
    if |parts| == 0 {
      ReplaceEmptyInput(from, to);
    } else if |parts| == 1 {
      assert Join(parts, [c]) == parts[0];
      assert Join(mapped, [c]) == mapped[0];
    } else {
      var rest := parts[1..];
      JoinCons(parts[0], rest, [c]);
      ReplaceAroundChar(parts[0], c, Join(rest, [c]), from, to);
      ReplacePieces(rest, c, from, to);
      assert mapped == [mapped[0]] + ReplaceEach(rest, from, to);
      JoinCons(mapped[0], ReplaceEach(rest, from, to), [c]);
    }
  }

  /** A `d`-delimited token other than the pattern `d v d` is copied, up to but
      not including its closing delimiter. */
  lemma ReplaceOtherToken(d: char, w: string, v: string, b: string, to: string)
    requires d !in w && d !in v && w != v
    ensures ReplaceAll([d] + w + [d] + b, [d] + v + [d], to)
         == [d] + w + ReplaceAll([d] + b, [d] + v + [d], to)
  {
    var s := [d] + w + [d] + b;
    var f := [d] + v + [d];
    var t := [d] + b;
    OtherTokenNoFront(d, w, v, b);
    ReplaceNoFront(s, f, to);
    TokenTail(d, w, b);
    ReplaceSkip(w, t, f, to);
    AppendAssoc([d], w, ReplaceAll(t, f, to));
  }

  lemma TokenTail(d: char, w: string, b: string)
    ensures ([d] + w + [d] + b)[0] == d
    ensures ([d] + w + [d] + b)[1..] == w + ([d] + b)
  {
    AppendAssoc([d] + w, [d], b);
    AppendAssoc([d], w, [d] + b);
  }

  lemma OtherTokenNoFront(d: char, w: string, v: string, b: string)
    requires d !in w && d !in v && w != v
    ensures var s := [d] + w + [d] + b; var f := [d] + v + [d];
      |s| < |f| || s[..|f|] != f
  {
    var s := [d] + w + [d] + b;
    var f := [d] + v + [d];
    if |s| >= |f| {
      if |w| == |v| {
        var j := FirstDifference(w, v);
        assert s[..|f|][j + 1] == w[j];
        assert f[j + 1] == v[j];
      } else if |w| > |v| {
        assert s[..|f|][|v| + 1] == w[|v|];
        assert f[|v| + 1] == d;
      } else {
        assert s[..|f|][|w| + 1] == d;
        assert f[|w| + 1] == v[|w|];
      }
    }
  }

  /** Two different strings of one length differ at some index. */
  lemma FirstDifference(w: string, v: string) returns (j: nat)
    requires |w| == |v| && w != v
    ensures j < |w| && w[j] != v[j]
  {
    j := 0;
    while j < |w| && w[j] == v[j]
      invariant j <= |w|
      invariant w[..j] == v[..j]
    {
      assert w[..j + 1] == w[..j] + [w[j]];
      assert v[..j + 1] == v[..j] + [v[j]];
      j := j + 1;
    }
  }

  // ---------------------------------------------------------------------------
  // `%`-delimited placeholders, as the converter's templates use them

  /** A `%`-delimited placeholder. */
  function Token(w: string): string
  {
    ['%'] + w + ['%']
  }

  /** A different token followed by text not starting like the pattern's name is
      copied whole. */
  lemma KeepToken(w: string, v: string, x: string, to: string)
    requires '%' !in w && '%' !in v && w != v
    requires x != [] && v != [] && x[0] != v[0]
    ensures ReplaceAll(Token(w) + x, Token(v), to) == Token(w) + ReplaceAll(x, Token(v), to)
  {
    ReplaceOtherToken('%', w, v, x, to);
    var y := ['%'] + x;
    assert y[1] == x[0] && Token(v)[1] == v[0];
    ReplaceMiss(y, 1, Token(v), to);
    assert y[1..] == x;
  }

  /** A token on its own is left alone by a different token. */
  lemma KeepLoneToken(w: string, v: string, to: string)
    requires '%' !in w && '%' !in v && w != v
    ensures ReplaceAll(Token(w), Token(v), to) == Token(w)
  {
    ReplaceOtherToken('%', w, v, [], to);
    assert ['%'] + w + ['%'] + [] == Token(w);
    assert ReplaceAll(['%'], Token(v), to) == ['%'];
  }

  // ---------------------------------------------------------------------------
  // Which chars `replace` can produce

  /** Every char of the result comes from the input or from the replacement. */
  lemma {:induction false} ReplaceChars(s: string, from: string, to: string, c: char)
    requires c in ReplaceAll(s, from, to)
    ensures c in s || c in to
    decreases |s|
  {
    if from == [] {
      if s != [] && c in ReplaceAll(s[1..], from, to) {
        ReplaceChars(s[1..], from, to, c);
      }
    } else if |s| < |from| {
    } else if s[..|from|] == from {
      if c in ReplaceAll(s[|from|..], from, to) {
        ReplaceChars(s[|from|..], from, to, c);
      }
    } else {
      if c in ReplaceAll(s[1..], from, to) {
        ReplaceChars(s[1..], from, to, c);
      }
    }
  }

  /** A char in neither the input nor the replacement is not in the result. */
  lemma {:induction false} ReplaceKeepsAbsent(s: string, from: string, to: string, c: char)
    requires c !in s && c !in to
    ensures c !in ReplaceAll(s, from, to)
    decreases |s|
  {
    if from == [] {
      if s != [] {
        ReplaceKeepsAbsent(s[1..], from, to, c);
      }
    } else if |s| < |from| {
    } else if s[..|from|] == from {
      ReplaceKeepsAbsent(s[|from|..], from, to, c);
    } else {
      ReplaceKeepsAbsent(s[1..], from, to, c);
    }
  }

  /** Replacing a char by text without it removes every occurrence of the char. */
  lemma {:induction false} ReplaceCharRemoves(s: string, c: char, to: string)
    requires c !in to
    ensures c !in ReplaceAll(s, [c], to)
    decreases |s|
  {
    if |s| >= 1 {
      ReplaceCharRemoves(s[1..], c, to);
    }
  }

  /** `s` with every `c` deleted. */
  function RemoveChar(s: string, c: char): (r: string)
    ensures c !in r
    ensures |r| <= |s|
    ensures forall x :: x in r ==> x in s
  {
    if s == [] then [] else if s[0] == c then RemoveChar(s[1..], c) else [s[0]] + RemoveChar(s[1..], c)
  }

  /** Replacing a one-char pattern by nothing is the filter `RemoveChar`. */
  lemma {:induction false} ReplaceByEmptyIsRemove(s: string, c: char)
    ensures ReplaceAll(s, [c], []) == RemoveChar(s, c)
    decreases |s|
  {
    if s != [] {
      ReplaceByEmptyIsRemove(s[1..], c);
      if s[0] == c {
        assert s[..1] == [c];
      } else {
        assert s[..1] != [c];
      }
    }
  }

  lemma RemoveCharAbsent(s: string, c: char)
    requires c !in s
    ensures RemoveChar(s, c) == s
  {
  }

  // ---------------------------------------------------------------------------
  // Per-element expansion of a sequence

  /** Each element mapped to a (possibly empty) sequence, the results in order. */
  function FlatMap<A, B>(f: A -> seq<B>, xs: seq<A>): seq<B>
  {
    if xs == [] then [] else f(xs[0]) + FlatMap(f, xs[1..])
  }

  lemma {:induction false} FlatMapAppend<A, B>(f: A -> seq<B>, a: seq<A>, b: seq<A>)
    ensures FlatMap(f, a + b) == FlatMap(f, a) + FlatMap(f, b)
    decreases |a|
  {
    if a == [] {
      assert a + b == b;
    } else {
      FlatMapAppend(f, a[1..], b);
      assert (a + b)[1..] == a[1..] + b;
    }
  }

  lemma {:induction false} FlatMapEmpty<A, B>(f: A -> seq<B>, xs: seq<A>)
    ensures FlatMap(f, xs) == [] <==> forall i :: 0 <= i < |xs| ==> f(xs[i]) == []
    decreases |xs|
  {
    if xs != [] {
      FlatMapEmpty(f, xs[1..]);
      assert forall i :: 1 <= i < |xs| ==> xs[1..][i - 1] == xs[i];
    }
  }

  lemma {:induction false} FlatMapShort<A, B>(f: A -> seq<B>, xs: seq<A>)
    requires forall x :: |f(x)| <= 1
    ensures |FlatMap(f, xs)| <= |xs|
    decreases |xs|
  {
    if xs != [] {
      FlatMapShort(f, xs[1..]);
    }
  }
}
