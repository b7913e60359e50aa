/** `SipContacts`: the contacts of an existing MicroSIP XML contact file, taken
    line by line with the pattern `<contact name="(.*)" number="(.*)" firstname=.*`,
    and the blanking of the entries whose number the converter writes again.
    Opening and reading the file are not modelled: the text is given. */
module XmlPerser {
  import opened Strings
  import opened Foreign
  import VcfParser

  /** One existing contact: the number as `fix_number` reduces it, the number as
      written, and the name. */
  datatype Entry = Entry(key: string, number: string, name: string)

  datatype SipContacts = SipContacts(data: seq<Entry>)

  /** What `clear_exist` leaves in place of an entry. */
  const Blank := Entry("", "", "")

  // ---------------------------------------------------------------------------
  // The pattern

  /** The three literal parts of the pattern. */
  const OpenMark := "<contact name=\""
  const NumberMark := "\" number=\""
  const FirstnameMark := "\" firstname="

  /** The pattern's literal parts are the ones the XML record is written with. */
  lemma MarksOfRecord()
    ensures OpenMark == VcfParser.XmlHead && NumberMark == VcfParser.XmlMid
    ensures |FirstnameMark| <= |VcfParser.XmlTail|
    ensures VcfParser.XmlTail[..|FirstnameMark|] == FirstnameMark
  {
    TailShape();
    assert VcfParser.XmlTail[..|TailFirst|] == TailFirst;
    assert TailFirst[..|FirstnameMark|] == FirstnameMark;
  }

  /** The last start `k` of `f` in `s` with `k + |f| <= bound`. */
  function LastOccurrence(s: string, f: string, bound: nat): (r: Option<nat>)
    requires bound <= |s|
    ensures r.Some? ==> r.value + |f| <= bound && OccursAt(s, r.value, f)
    decreases bound
  {
    if bound < |f| then None
    else if OccursAt(s, bound - |f|, f) then Some(bound - |f|)
    else LastOccurrence(s, f, bound - 1)
  }

  /** No occurrence within the bound lies after the one found, and none at all
      when none is found. */
  lemma {:induction false} LastOccurrenceIsLast(s: string, f: string, bound: nat)
    requires bound <= |s|
    ensures var r := LastOccurrence(s, f, bound);
      && (r.Some? ==> forall k: nat :: r.value < k && k + |f| <= bound ==> !OccursAt(s, k, f))
      && (r.None? ==> forall k: nat :: k + |f| <= bound ==> !OccursAt(s, k, f))
    decreases bound
  {
    if bound >= |f| && !OccursAt(s, bound - |f|, f) {
      LastOccurrenceIsLast(s, f, bound - 1);
    }
  }

  /** An occurrence with none after it within the bound is the one found. */
  lemma LastOccurrenceAt(s: string, f: string, bound: nat, j: nat)
    requires j + |f| <= bound <= |s| && OccursAt(s, j, f)
    requires forall k: nat :: j < k && k + |f| <= bound ==> !OccursAt(s, k, f)
    ensures LastOccurrence(s, f, bound) == Some(j)
  {
    LastOccurrenceIsLast(s, f, bound);
  }

  /** The first start `k >= from` of `f` in `s` with `k + |f| <= bound`. */
  function FirstOccurrence(s: string, f: string, from: nat, bound: nat): (r: Option<nat>)
    requires bound <= |s|
    ensures r.Some? ==> from <= r.value && r.value + |f| <= bound && OccursAt(s, r.value, f)
    decreases bound - from
  {
    if from + |f| > bound then None
    else if OccursAt(s, from, f) then Some(from)
    else FirstOccurrence(s, f, from + 1, bound)
  }

  /** No occurrence from `from` on lies before the one found, and none within the
      bound when none is found. */
  lemma {:induction false} FirstOccurrenceIsFirst(s: string, f: string, from: nat, bound: nat)
    requires bound <= |s|
    ensures var r := FirstOccurrence(s, f, from, bound);
      && (r.Some? ==> forall k: nat :: from <= k < r.value ==> !OccursAt(s, k, f))
      && (r.None? ==> forall k: nat :: from <= k && k + |f| <= bound ==> !OccursAt(s, k, f))
    decreases bound - from
  {
    if from + |f| <= bound && !OccursAt(s, from, f) {
      FirstOccurrenceIsFirst(s, f, from + 1, bound);
    }
  }

  /** The pattern matches `line` starting at `p`, with the name group running
      from the end of `OpenMark` to `i` and the number group from the end of
      `NumberMark` at `i` to `j`, where `FirstnameMark` stands. The trailing `.*`
      matches the empty text, so it adds no condition. */
  predicate MatchAt(line: string, p: nat, i: nat, j: nat)
  {
    && OccursAt(line, p, OpenMark) && p + |OpenMark| <= i
    && OccursAt(line, i, NumberMark) && i + |NumberMark| <= j
    && OccursAt(line, j, FirstnameMark)
  }

  /** Where a match starts and where its two groups end. */
  datatype Bounds = Bounds(start: nat, nameEnd: nat, numberEnd: nat)

  /** The match `Regex::captures` reports: the last `FirstnameMark`, the last
      `NumberMark` before it, the first `OpenMark` before that. */
  function FindMatch(line: string): Option<Bounds>
  {
    match LastOccurrence(line, FirstnameMark, |line|)
    case None => None
    case Some(j) =>
      match LastOccurrence(line, NumberMark, j)
      case None => None
      case Some(i) =>
        match FirstOccurrence(line, OpenMark, 0, i)
        case None => None
        case Some(p) => Some(Bounds(p, i, j))
  }

  /** `FindMatch` finds a match exactly when there is one, and the one it finds
      is the leftmost, then the one with the longest name group, then the one
      with the longest number group: the order in which a backtracking matcher
      tries the greedy groups. */
  lemma FindMatchSpec(line: string)
    ensures FindMatch(line).None? ==> forall p: nat, i: nat, j: nat :: !MatchAt(line, p, i, j)
    ensures FindMatch(line).Some? ==> var bd := FindMatch(line).value;
      && MatchAt(line, bd.start, bd.nameEnd, bd.numberEnd)
      && (forall p: nat, i: nat, j: nat :: MatchAt(line, p, i, j) ==> bd.start <= p)
      && (forall i: nat, j: nat :: MatchAt(line, bd.start, i, j) ==> i <= bd.nameEnd)
      && (forall j: nat :: MatchAt(line, bd.start, bd.nameEnd, j) ==> j <= bd.numberEnd)
  {
    LastOccurrenceIsLast(line, FirstnameMark, |line|);
    match LastOccurrence(line, FirstnameMark, |line|)
    case None =>
    case Some(j) =>
      LastOccurrenceIsLast(line, NumberMark, j);
      match LastOccurrence(line, NumberMark, j)
      case None =>
      case Some(i) =>
        FirstOccurrenceIsFirst(line, OpenMark, 0, i);
  }

  /** The two captures of a line, name first, or None when the pattern does not
      match. */
  function Captures(line: string): Option<(string, string)>
  {
    match FindMatch(line)
    case None => None
    case Some(bd) =>
      if bd.nameEnd <= bd.numberEnd <= |line| && bd.start + |OpenMark| <= bd.nameEnd
         && bd.nameEnd + |NumberMark| <= bd.numberEnd
      then Some((line[bd.start + |OpenMark|..bd.nameEnd], line[bd.nameEnd + |NumberMark|..bd.numberEnd]))
      else None
  }

  /** The captures are the two groups of a match, and there are none exactly when
      nothing matches. */
  lemma CapturesSpec(line: string)
    ensures Captures(line).None? <==> forall p: nat, i: nat, j: nat :: !MatchAt(line, p, i, j)
    ensures Captures(line).Some? ==> exists p: nat, i: nat, j: nat ::
      MatchAt(line, p, i, j)
      && Captures(line).value == (line[p + |OpenMark|..i], line[i + |NumberMark|..j])
  {
    FindMatchSpec(line);
  }

  /** The entries one line contributes: `(fix_number(c[2]), c[2], c[1])` when the
      pattern matches, nothing otherwise. */
  function LineEntries(line: string, ext: Externals): (r: seq<Entry>)
    ensures |r| <= 1
    ensures r == [] <==> Captures(line).None?
    ensures r != [] ==> var (name, number) := Captures(line).value;
      r[0].name == name && r[0].number == number && r[0].key == ext.fixNumber(number)
  {
    match Captures(line)
    case None => []
    case Some((name, number)) => [Entry(ext.fixNumber(number), number, name)]
  }

  // ---------------------------------------------------------------------------
  // SipContacts

  /** `SipContacts::empty`: no existing contacts, used when nothing is merged. */
  function Empty(): (c: SipContacts)
    ensures IsEmpty(c)
  {
    SipContacts([])
  }

  /** `SipContacts::is_empty`. */
  predicate IsEmpty(c: SipContacts)
  {
    c.data == []
  }

  /** `SipContacts::new` once the file is read: one entry per line the pattern
      matches, in file order. A match never spans a line break, because `.` does
      not match '\n' and the literal parts hold none. */
  function New(text: string, ext: Externals): (c: SipContacts)
    ensures |c.data| <= |Lines(text)|
  {
    FlatMapShort((line: string) => LineEntries(line, ext), Lines(text));
    SipContacts(FlatMap((line: string) => LineEntries(line, ext), Lines(text)))
  }

  /** The file yields no contact exactly when no line matches the pattern. */
  lemma NewEmptyIff(text: string, ext: Externals)
    ensures IsEmpty(New(text, ext)) <==>
      forall k :: 0 <= k < |Lines(text)| ==> Captures(Lines(text)[k]).None?
  {
    FlatMapEmpty((line: string) => LineEntries(line, ext), Lines(text));
  }

  /** Text made of lines free of '\n' is read line by line, in order. */
  lemma NewOfLines(lines: seq<string>, ext: Externals)
    requires |lines| > 0
    requires forall k :: 0 <= k < |lines| ==> '\n' !in lines[k]
    ensures New(Join(lines, "\n"), ext).data
         == FlatMap((line: string) => LineEntries(line, ext), lines)
  {
    SplitJoinChar(lines, '\n');
  }

  /** Appending lines to a file appends their entries. */
  lemma NewAppendLines(a: seq<string>, b: seq<string>, ext: Externals)
    requires |a| > 0 && |b| > 0
    requires forall k :: 0 <= k < |a| ==> '\n' !in a[k]
    requires forall k :: 0 <= k < |b| ==> '\n' !in b[k]
    ensures New(Join(a + b, "\n"), ext).data == New(Join(a, "\n"), ext).data + New(Join(b, "\n"), ext).data
  {
    NewOfLines(a, ext);
    NewOfLines(b, ext);
    NewOfLines(a + b, ext);
    FlatMapAppend((line: string) => LineEntries(line, ext), a, b);
  }

  // ---------------------------------------------------------------------------
  // Reading back a written record

  /** The record's tail cut into its `firstname` attribute, the attributes up
      to `id`, the `info` attribute and the rest, grouped as the tail is. */
  const TailFirst := "\"" + " firstname=\"\""
  const TailMid := " lastname=\"\"" + " phone=\"\"" + " mobile=\"\"" + " email=\"\"" + " address=\"\""
    + " city=\"\"" + " state=\"\"" + " zip=\"\"" + " comment=\"\"" + " id=\"\""
  const TailInfo := " info=\"\""
  const TailLast := " presence=\"0\"" + " directory=\"0\"" + "/>"

  lemma TailShape()
    ensures VcfParser.XmlTail == TailFirst + TailMid + TailInfo + TailLast
  {
  }

  lemma TailNoF()
    ensures 'f' !in TailMid && 'f' !in TailLast
  {
    TailMidNoF();
    TailLastNoF();
  }

  lemma TailMidNoF()
    ensures 'f' !in TailMid
  {
  }

  lemma TailLastNoF()
    ensures 'f' !in TailLast
  {
  }

  /** Only two chars of the tail are 'f': the one of `firstname` and the one of
      `info`, which follows an 'n'. */
  lemma TailF(e: nat)
    ensures e < |VcfParser.XmlTail| && VcfParser.XmlTail[e] == 'f' && e != 2 ==>
      e > 0 && VcfParser.XmlTail[e - 1] == 'n'
  {
    TailShape();
    TailNoF();
    TailEnds();
    FPositions(TailFirst, TailMid, TailInfo, TailLast, e);
  }

  lemma TailEnds()
    ensures forall k :: 0 <= k < |TailFirst| && TailFirst[k] == 'f' ==> k == 2
    ensures forall k :: 0 <= k < |TailInfo| && TailInfo[k] == 'f' ==> k > 0 && TailInfo[k - 1] == 'n'
  {
  }

  /** Where the 'f's of four concatenated pieces can be. */
  lemma FPositions(a: string, m: string, i: string, l: string, e: nat)
    requires 'f' !in m && 'f' !in l
    requires forall k :: 0 <= k < |a| && a[k] == 'f' ==> k == 2
    requires forall k :: 0 <= k < |i| && i[k] == 'f' ==> k > 0 && i[k - 1] == 'n'
    ensures var t := a + m + i + l;
      e < |t| && t[e] == 'f' && e != 2 ==> e > 0 && t[e - 1] == 'n'
  {
    var t := a + m + i + l;
    if e < |a| {
      assert t[e] == a[e];
    } else if e < |a| + |m| {
      assert t[e] == m[e - |a|];
    } else if e < |a| + |m| + |i| {
      assert t[e] == i[e - |a| - |m|];
      if e > |a| + |m| {
        assert t[e - 1] == i[e - 1 - |a| - |m|];
      }
    } else if e < |t| {
      assert t[e] == l[e - |a| - |m| - |i|];
    }
  }

  /** What reading a record back needs of the text after the number: it starts
      with `FirstnameMark`, ends with `/>`, and its other 'f's follow an 'n', so
      `FirstnameMark` does not occur in it again. */
  predicate TailOk(t: string)
  {
    && |t| >= |FirstnameMark| && t[..|FirstnameMark|] == FirstnameMark
    && t[|t| - 2..] == "/>"
    && forall e :: 2 < e < |t| && t[e] == 'f' ==> t[e - 1] == 'n'
  }

  lemma XmlTailOk()
    ensures TailOk(VcfParser.XmlTail)
  {
    MarksOfRecord();
    TailShape();
    forall e | 2 < e < |VcfParser.XmlTail| && VcfParser.XmlTail[e] == 'f'
      ensures VcfParser.XmlTail[e - 1] == 'n'
    {
      TailF(e);
    }
  }

  /** After the tail's own `firstname` mark, no other one follows. */
  lemma NoLaterFirstname(x: string, t: string, rest: string, k: nat)
    requires TailOk(t) && '"' !in rest && |x| < k
    ensures !OccursAt(x + t + rest, k, FirstnameMark)
  {
    var line := x + t + rest;
    if k + |FirstnameMark| <= |line| {
      var d := k - |x|;
      var w := line[k..k + |FirstnameMark|];
      assert w[0] == line[k] && w[1] == line[k + 1] && w[2] == line[k + 2];
      if d >= |t| {
        assert line[k] == rest[d - |t|];
      } else if d + 2 >= |t| {
        assert line[k] == t[d] == t[|t| - 2..][d + 2 - |t|];
      } else {
        assert line[k] == t[d] && line[k + 1] == t[d + 1] && line[k + 2] == t[d + 2];
      }
    }
  }

  /** Between a mark ending in '"' and the text after a '"'-free `b`, no other
      occurrence of the mark can end. */
  lemma NoLaterMark(x: string, m: string, b: string, y: string, z: string, i: nat)
    requires m != [] && m[|m| - 1] == '"' && '"' !in b
    requires |x| < i && i + |m| <= |x| + |m| + |b|
    ensures !OccursAt(x + m + b + y + z, i, m)
  {
    var line := x + m + b + y + z;
    var e := i + |m| - 1;
    assert line[e] == b[e - |x| - |m|];
  }

  /** The number group ends where the tail starts. */
  lemma LastFirstname(x: string, t: string, rest: string)
    requires TailOk(t) && '"' !in rest
    ensures LastOccurrence(x + t + rest, FirstnameMark, |x + t + rest|) == Some(|x|)
  {
    var line := x + t + rest;
    assert line[|x|..|x| + |FirstnameMark|] == t[..|FirstnameMark|];
    assert OccursAt(line, |x|, FirstnameMark);
    forall k: nat | |x| < k
      ensures !OccursAt(line, k, FirstnameMark)
    {
      NoLaterFirstname(x, t, rest, k);
    }
    LastOccurrenceAt(line, FirstnameMark, |line|, |x|);
  }

  /** The name group ends at the record's own mark. */
  lemma LastMark(x: string, m: string, b: string, y: string, z: string)
    requires m != [] && m[|m| - 1] == '"' && '"' !in b
    ensures var line := x + m + b + y + z;
      |x| + |m| + |b| <= |line| && LastOccurrence(line, m, |x| + |m| + |b|) == Some(|x|)
  {
    var line := x + m + b + y + z;
    assert line == x + (m + (b + y + z));
    assert OccursAt(line, |x|, m);
    forall i: nat | |x| < i && i + |m| <= |x| + |m| + |b|
      ensures !OccursAt(line, i, m)
    {
      NoLaterMark(x, m, b, y, z, i);
    }
    LastOccurrenceAt(line, m, |x| + |m| + |b|, |x|);
  }

  /** A line that starts with `OpenMark` is matched from its start. */
  lemma FirstOpenMark(line: string, bound: nat)
    requires |OpenMark| <= bound <= |line| && line[..|OpenMark|] == OpenMark
    ensures FirstOccurrence(line, OpenMark, 0, bound) == Some(0)
  {
    assert OccursAt(line, 0, OpenMark);
  }

  /** A record line whose number holds no '"', followed by text without '"',
      matches with the two attribute values as its captures, whatever the name
      holds. */
  lemma CapturesOfRecord(name: string, telType: string, b: string, t: string, rest: string)
    requires '"' !in b && '"' !in rest && TailOk(t)
    ensures Captures(OpenMark + name + telType + NumberMark + b + t + rest) == Some((name + telType, b))
  {
    var x := OpenMark + name + telType;
    var line := x + NumberMark + b + t + rest;
    var j := |x| + |NumberMark| + |b|;
    RecordMatch(name, telType, b, t, rest);
    RecordSlices(name, telType, b, t, rest);
    CapturesOfMatch(line, Bounds(0, |x|, j));
  }

  /** The match found in a record line starts at the line's start and has the
      record's own marks as its group ends. */
  lemma RecordMatch(name: string, telType: string, b: string, t: string, rest: string)
    requires '"' !in b && '"' !in rest && TailOk(t)
    ensures var x := OpenMark + name + telType;
      FindMatch(x + NumberMark + b + t + rest) == Some(Bounds(0, |x|, |x| + |NumberMark| + |b|))
  {
    var x := OpenMark + name + telType;
    var line := x + NumberMark + b + t + rest;
    var j := |x| + |NumberMark| + |b|;
    LastFirstname(x + NumberMark + b, t, rest);
    LastMark(x, NumberMark, b, t, rest);
    StartsWith(OpenMark, name, telType, NumberMark, b, t, rest);
    FirstOpenMark(line, |x|);
    MatchFound(line, 0, |x|, j);
  }

  /** Where the three searches stop, `FindMatch` reports the match. */
  lemma MatchFound(line: string, p: nat, i: nat, j: nat)
    requires j <= |line|
    requires LastOccurrence(line, FirstnameMark, |line|) == Some(j)
    requires LastOccurrence(line, NumberMark, j) == Some(i)
    requires FirstOccurrence(line, OpenMark, 0, i) == Some(p)
    ensures FindMatch(line) == Some(Bounds(p, i, j))
  {
  }

  /** The captures are the two groups of the match found. */
  lemma CapturesOfMatch(line: string, bd: Bounds)
    requires FindMatch(line) == Some(bd)
    requires bd.start + |OpenMark| <= bd.nameEnd
    requires bd.nameEnd + |NumberMark| <= bd.numberEnd <= |line|
    ensures Captures(line)
         == Some((line[bd.start + |OpenMark|..bd.nameEnd], line[bd.nameEnd + |NumberMark|..bd.numberEnd]))
  {
  }

  lemma StartsWith(p: string, a: string, b: string, c: string, d: string, e: string, f: string)
    ensures (p + a + b + c + d + e + f)[..|p|] == p
  {
    var s := p + a + b + c + d + e + f;
    assert forall i :: 0 <= i < |p| ==> s[i] == p[i];
  }

  /** The pieces of a record line. */
  lemma RecordSlices(name: string, telType: string, b: string, t: string, rest: string)
    ensures var x := OpenMark + name + telType;
      var line := x + NumberMark + b + t + rest;
      && line[..|OpenMark|] == OpenMark
      && line[|OpenMark|..|x|] == name + telType
      && line[|x| + |NumberMark|..|x| + |NumberMark| + |b|] == b
  {
    var x := OpenMark + name + telType;
    var line := x + (NumberMark + b + t + rest);
    assert line == x + NumberMark + b + t + rest;
    assert line[..|x|] == x;
    assert x == OpenMark + (name + telType);
    var y := x + NumberMark;
    assert line == y + (b + t + rest);
    assert line[|y|..|y| + |b|] == b;
  }

  /** Reading back the record `fmt_xml` writes: the name attribute comes back as
      the name followed by the type suffix, the number as the number, provided no
      field holds a '%' and the number and what follows the record hold no '"'. */
  lemma ReadRecord(name: string, telType: string, number: string, rest: string, ext: Externals)
    requires '%' !in name && '%' !in telType && '%' !in number
    requires '"' !in number && '"' !in rest
    ensures LineEntries(VcfParser.FmtXml(name, telType, number) + rest, ext)
         == [Entry(ext.fixNumber(number), number, name + telType)]
  {
    VcfParser.FmtXmlPlain(name, telType, number);
    MarksOfRecord();
    XmlTailOk();
    CapturesOfRecord(name, telType, number, VcfParser.XmlTail, rest);
  }

  // ---------------------------------------------------------------------------
  // clear_exist

  /** The entries with `key` blanked, the others kept. */
  function Cleared(data: seq<Entry>, key: string): (r: seq<Entry>)
    ensures |r| == |data|
    ensures forall k :: 0 <= k < |data| && data[k].key == key ==> r[k] == Blank
    ensures forall k :: 0 <= k < |data| && data[k].key != key ==> r[k] == data[k]
  {
    if data == [] then []
    else [if data[0].key == key then Blank else data[0]] + Cleared(data[1..], key)
  }

  /** `SipContacts::clear_exist`: the indices whose key is `fix_number(number)`
      are collected first, then those entries are blanked. */
  method ClearExist(c: SipContacts, number: string, ext: Externals) returns (r: SipContacts)
    ensures |r.data| == |c.data|
    ensures forall k :: 0 <= k < |c.data| ==>
      r.data[k] == (if c.data[k].key == ext.fixNumber(number) then Blank else c.data[k])
    ensures r.data == Cleared(c.data, ext.fixNumber(number))
  {
    var key := ext.fixNumber(number);
    var clrIdx: seq<nat> := [];
    var idx := 0;
    while idx < |c.data|
      invariant idx <= |c.data|
      invariant forall m :: 0 <= m < |clrIdx| ==> clrIdx[m] < idx
      invariant forall k :: 0 <= k < idx ==> (c.data[k].key == key <==> k in clrIdx)
      invariant forall m :: 0 <= m < |clrIdx| ==> c.data[clrIdx[m]].key == key
    {
      if c.data[idx].key == key {
        clrIdx := clrIdx + [idx];
      }
      idx := idx + 1;
    }
    var data := c.data;
    var n := 0;
    while n < |clrIdx|
      invariant n <= |clrIdx| && |data| == |c.data|
      invariant forall k :: 0 <= k < |data| && k in clrIdx[..n] ==> data[k] == Blank
      invariant forall k :: 0 <= k < |data| && k !in clrIdx[..n] ==> data[k] == c.data[k]
    {
      assert clrIdx[..n + 1] == clrIdx[..n] + [clrIdx[n]];
      data := data[clrIdx[n] := Blank];
      n := n + 1;
    }
    assert clrIdx[..n] == clrIdx;
    r := SipContacts(data);
  }

  /** Clearing twice with the same number is clearing once. */
  lemma ClearedIdempotent(data: seq<Entry>, key: string)
    ensures Cleared(Cleared(data, key), key) == Cleared(data, key)
  {
    var once := Cleared(data, key);
    var twice := Cleared(once, key);
    forall k | 0 <= k < |data|
      ensures twice[k] == once[k]
    {
    }
  }

  /** Clearing two numbers gives the same result in either order. */
  lemma ClearedCommute(data: seq<Entry>, key1: string, key2: string)
    ensures Cleared(Cleared(data, key1), key2) == Cleared(Cleared(data, key2), key1)
  {
    var r1 := Cleared(Cleared(data, key1), key2);
    var r2 := Cleared(Cleared(data, key2), key1);
    forall k | 0 <= k < |data|
      ensures r1[k] == r2[k]
    {
    }
  }

  /** After clearing, no entry keeps a non-empty key that was cleared. */
  lemma ClearedRemovesKey(data: seq<Entry>, key: string)
    requires key != ""
    ensures forall k :: 0 <= k < |data| ==> Cleared(data, key)[k].key != key
  {
  }
}
