/** The conversion loop of the command: every record of the address book is
    parsed, a contact with telephones becomes one MicroSIP contact line per
    telephone, and the lines are written between the XML declaration with
    `<contacts>` and the closing `</contacts>`. The loop counts the contacts and
    the numbers it writes. Opening the files and printing the counts are not
    modelled: the loop yields its lines and counts, and `FileText` is the text
    its writes produce. */
module Conversion {
  import opened Strings
  import opened Foreign
  import VcfParser
  import XmlPerser

  /** What the loop produces: the contact lines in the order written, and the
      counters `count_contact` and `count_number`. */
  datatype Output = Output(lines: seq<string>, countContact: nat, countNumber: nat)

  // ---------------------------------------------------------------------------
  // One contact

  /** The name every line of a contact carries: `"{name_index} - {full_name}"`
      with every '"' deleted. */
  function DisplayName(c: VcfParser.Contact, ext: Externals): (r: string)
    ensures '"' !in r
  {
    var s := VcfParser.NameIndex(c, ext) + " - " + VcfParser.FullName(c);
    QuoteIsChar();
    ReplaceByEmptyIsRemove(s, '"');
    ReplaceAll(s, "\"", "")
  }

  lemma QuoteIsChar()
    ensures "\"" == ['"'] && "" == []
  {
  }

  /** The quotes go, the separator and everything else stay in order. */
  lemma DisplayNameParts(c: VcfParser.Contact, ext: Externals)
    ensures DisplayName(c, ext)
         == RemoveChar(VcfParser.NameIndex(c, ext), '"') + " - " + RemoveChar(VcfParser.FullName(c), '"')
    ensures '"' !in VcfParser.FullName(c) && '"' !in VcfParser.NameIndex(c, ext) ==>
      DisplayName(c, ext) == VcfParser.NameIndex(c, ext) + " - " + VcfParser.FullName(c)
  {
    var x := VcfParser.NameIndex(c, ext);
    var y := VcfParser.FullName(c);
    QuoteIsChar();
    ReplaceByEmptyIsRemove(x + " - " + y, '"');
    RemoveCharConcat(x + " - ", y, '"');
    RemoveCharConcat(x, " - ", '"');
    RemoveCharAbsent(" - ", '"');
    if '"' !in y && '"' !in x {
      RemoveCharAbsent(x, '"');
      RemoveCharAbsent(y, '"');
    }
  }

  lemma {:induction false} RemoveCharConcat(a: string, b: string, c: char)
    ensures RemoveChar(a + b, c) == RemoveChar(a, c) + RemoveChar(b, c)
    decreases |a|
  {
    if a != [] {
      RemoveCharConcat(a[1..], b, c);
      assert (a + b)[1..] == a[1..] + b;
    } else {
      assert a + b == b;
    }
  }

  /** The type shown after the name: `" (T)"` for a type T, nothing for none. */
  function TypeSuffix(t: string): (r: string)
    ensures r == "" <==> t == ""
  {
    if t == "" then "" else " (" + t + ")"
  }

  /** A suffix gives its type back: it is " (", the type, then ")". */
  lemma TypeSuffixParts(t: string)
    requires t != ""
    ensures var r := TypeSuffix(t);
      |r| == |t| + 3 && r[..2] == " (" && r[2..|r| - 1] == t && r[|r| - 1] == ')'
  {
  }

  /** The line one telephone of a contact is written as (without its line
      break). */
  function TelLine(name: string, tel: VcfParser.Telephone): string
  {
    VcfParser.FmtXml(name, TypeSuffix(tel.telType), tel.number)
  }

  /** The lines of one contact: one per telephone, in order. */
  function ContactLines(c: VcfParser.Contact, ext: Externals): (r: seq<string>)
    ensures |r| == |c.telNumbers|
    ensures r == [] <==> VcfParser.IsEmpty(c)
  {
    seq(|c.telNumbers|, k requires 0 <= k < |c.telNumbers| => TelLine(DisplayName(c, ext), c.telNumbers[k]))
  }

  // ---------------------------------------------------------------------------
  // All contacts: the reference definitions

  /** The contacts of the records, in order. */
  function Contacts(vcards: seq<string>, ext: Externals): (r: seq<VcfParser.Contact>)
    ensures |r| == |vcards|
  {
    seq(|vcards|, i requires 0 <= i < |vcards| => VcfParser.ParseContact(vcards[i], ext))
  }

  /** How many telephones the contacts hold together. */
  function TelCount(cs: seq<VcfParser.Contact>): nat
  {
    if cs == [] then 0 else TelCount(cs[..|cs| - 1]) + |cs[|cs| - 1].telNumbers|
  }

  /** How many contacts have a telephone. */
  function NonEmptyCount(cs: seq<VcfParser.Contact>): (r: nat)
    ensures r <= |cs|
  {
    if cs == [] then 0
    else NonEmptyCount(cs[..|cs| - 1]) + (if VcfParser.IsEmpty(cs[|cs| - 1]) then 0 else 1)
  }

  /** The lines of all contacts: contact by contact, telephone by telephone. */
  function Expected(cs: seq<VcfParser.Contact>, ext: Externals): (r: seq<string>)
    ensures |r| == TelCount(cs)
  {
    if cs == [] then [] else Expected(cs[..|cs| - 1], ext) + ContactLines(cs[|cs| - 1], ext)
  }

  // ---------------------------------------------------------------------------
  // The loop

  /** The loop over the records: a contact without telephones is skipped and not
      counted; otherwise each of its telephones is written as one line and
      counted, and the contact is counted. The caller passes the records that
      `VcfParser.GetVcards` splits the file text into. */
  method Convert(vcards: seq<string>, ext: Externals) returns (out: Output)
    ensures out.lines == Expected(Contacts(vcards, ext), ext)
    ensures out.countNumber == |out.lines| == TelCount(Contacts(vcards, ext))
    ensures out.countContact == NonEmptyCount(Contacts(vcards, ext))
  {
    var cs := Contacts(vcards, ext);
    var lines: seq<string> := [];
    var countContact := 0;
    var countNumber := 0;
    for i := 0 to |vcards|
      invariant lines == Expected(cs[..i], ext)
      invariant countNumber == |lines|
      invariant countContact == NonEmptyCount(cs[..i])
    {
      var ct := VcfParser.ParseContact(vcards[i], ext);
      LoopStep(cs, i, ext);
      ContactsAt(vcards, ext, i);
      if VcfParser.IsEmpty(ct) {
        continue;
      }
      lines, countNumber := WriteContact(ct, ext, lines, countNumber);
      countContact := countContact + 1;
    }
    assert cs[..|vcards|] == cs;
    out := Output(lines, countContact, countNumber);
  }

  /** The inner loop over the telephones of one contact with a telephone: each
      is written as one line after those already written, and counted. */
  method WriteContact(ct: VcfParser.Contact, ext: Externals, lines: seq<string>, countNumber: nat)
    returns (lines': seq<string>, countNumber': nat)
    requires countNumber == |lines|
    ensures lines' == lines + ContactLines(ct, ext)
    ensures countNumber' == |lines'| == countNumber + |ct.telNumbers|
  {
    var name := DisplayName(ct, ext);
    lines' := lines;
    countNumber' := countNumber;
    for k := 0 to |ct.telNumbers|
      invariant lines' == lines + ContactLines(ct, ext)[..k]
      invariant countNumber' == |lines'|
    {
      TelStep(ct, ext, k);
      lines' := lines' + [TelLine(name, ct.telNumbers[k])];
      countNumber' := countNumber' + 1;
    }
    assert ContactLines(ct, ext)[..|ct.telNumbers|] == ContactLines(ct, ext);
  }

  /** One record more: its lines follow, and it is counted when it has a
      telephone. */
  lemma LoopStep(cs: seq<VcfParser.Contact>, i: nat, ext: Externals)
    requires i < |cs|
    ensures Expected(cs[..i + 1], ext) == Expected(cs[..i], ext) + ContactLines(cs[i], ext)
    ensures NonEmptyCount(cs[..i + 1]) == NonEmptyCount(cs[..i]) + (if VcfParser.IsEmpty(cs[i]) then 0 else 1)
  {
    assert cs[..i + 1][..i] == cs[..i];
  }

  lemma ContactsAt(vcards: seq<string>, ext: Externals, i: nat)
    requires i < |vcards|
    ensures Contacts(vcards, ext)[i] == VcfParser.ParseContact(vcards[i], ext)
  {
  }

  /** One telephone more: its line follows. */
  lemma TelStep(c: VcfParser.Contact, ext: Externals, k: nat)
    requires k < |c.telNumbers|
    ensures ContactLines(c, ext)[..k + 1]
         == ContactLines(c, ext)[..k] + [TelLine(DisplayName(c, ext), c.telNumbers[k])]
  {
  }

  // ---------------------------------------------------------------------------
  // Properties of the reference

  /** Every contact counted has at least one number, and there are no numbers
      exactly when no contact is counted. */
  lemma {:induction false} CountsRelate(cs: seq<VcfParser.Contact>)
    ensures NonEmptyCount(cs) <= TelCount(cs)
    ensures NonEmptyCount(cs) == 0 <==> TelCount(cs) == 0
  {
    if cs != [] {
      CountsRelate(cs[..|cs| - 1]);
    }
  }

  /** The line of telephone `k` of contact `i` comes after the lines of all
      earlier contacts and the earlier telephones of the same contact. */
  lemma {:induction false} ExpectedAt(cs: seq<VcfParser.Contact>, ext: Externals, i: nat, k: nat)
    requires i < |cs| && k < |cs[i].telNumbers|
    ensures TelCount(cs[..i]) + k < |Expected(cs, ext)|
    ensures Expected(cs, ext)[TelCount(cs[..i]) + k] == TelLine(DisplayName(cs[i], ext), cs[i].telNumbers[k])
    decreases |cs|
  {
    var init := cs[..|cs| - 1];
    if i < |cs| - 1 {
      assert init[..i] == cs[..i] && init[i] == cs[i];
      ExpectedAt(init, ext, i, k);
      TelCountMonotone(init, i);
    } else {
      assert cs[..i] == init;
    }
  }

  lemma {:induction false} TelCountMonotone(cs: seq<VcfParser.Contact>, i: nat)
    requires i < |cs|
    ensures TelCount(cs[..i]) + |cs[i].telNumbers| <= TelCount(cs)
    decreases |cs|
  {
    var init := cs[..|cs| - 1];
    if i < |cs| - 1 {
      assert init[..i] == cs[..i] && init[i] == cs[i];
      TelCountMonotone(init, i);
    } else {
      assert cs[..i] == init;
    }
  }

  /** Records are converted independently: the lines of two runs of records are
      the lines of each run, one after the other. */
  lemma {:induction false} ExpectedAppend(a: seq<VcfParser.Contact>, b: seq<VcfParser.Contact>, ext: Externals)
    ensures Expected(a + b, ext) == Expected(a, ext) + Expected(b, ext)
    decreases |b|
  {
    if b == [] {
      assert a + b == a;
    } else {
      var b0 := b[..|b| - 1];
      assert (a + b)[..|a + b| - 1] == a + b0;
      ExpectedAppend(a, b0, ext);
    }
  }

  /** A contact without telephones adds no line and is not counted. */
  lemma EmptyContactSkipped(cs: seq<VcfParser.Contact>, c: VcfParser.Contact, ext: Externals)
    requires VcfParser.IsEmpty(c)
    ensures Expected(cs + [c], ext) == Expected(cs, ext)
    ensures NonEmptyCount(cs + [c]) == NonEmptyCount(cs)
    ensures TelCount(cs + [c]) == TelCount(cs)
  {
    assert (cs + [c])[..|cs|] == cs;
  }

  // ---------------------------------------------------------------------------
  // The written file

  const DeclLine := "<?xml version=\"1.0\"?>\r"
  const OpenLine := "<contacts>\r"
  const CloseLine := "</contacts>\r"

  /** Each contact line as written: followed by '\r' (the writer adds '\n'). */
  function CrLines(lines: seq<string>): (r: seq<string>)
    ensures |r| == |lines|
  {
    seq(|lines|, k requires 0 <= k < |lines| => lines[k] + "\r")
  }

  /** The file the loop writes: each write ends its text with '\n'. The first
      write holds "\r\n" in the middle, so it is two lines. */
  function FileText(lines: seq<string>): string
  {
    Terminated([DeclLine, OpenLine] + CrLines(lines) + [CloseLine], "\n")
  }

  /** The file is the XML declaration and `<contacts>`, the contact lines, and
      `</contacts>`, every line ended by "\r\n". */
  lemma FileFrame(lines: seq<string>)
    ensures FileText(lines)
         == "<?xml version=\"1.0\"?>\r\n<contacts>\r\n" + Terminated(CrLines(lines), "\n") + "</contacts>\r\n"
  {
    var mid := CrLines(lines);
    var parts := [DeclLine, OpenLine] + mid + [CloseLine];
    assert parts[0] == DeclLine && parts[1..][0] == OpenLine;
    assert parts[1..][1..] == mid + [CloseLine];
    TerminatedLast(mid, CloseLine, "\n");
    var rest := Terminated(mid, "\n");
    assert Terminated(parts[1..], "\n") == OpenLine + "\n" + Terminated(parts[1..][1..], "\n");
    assert Terminated(parts, "\n") == DeclLine + "\n" + Terminated(parts[1..], "\n");
    assert FileText(lines) == DeclLine + "\n" + (OpenLine + "\n" + (rest + (CloseLine + "\n")));
    HeaderText(rest);
  }

  lemma HeaderText(rest: string)
    ensures DeclLine + "\n" + (OpenLine + "\n" + (rest + (CloseLine + "\n")))
         == "<?xml version=\"1.0\"?>\r\n<contacts>\r\n" + rest + "</contacts>\r\n"
  {
    assert DeclLine + "\n" + OpenLine + "\n" == "<?xml version=\"1.0\"?>\r\n<contacts>\r\n";
    assert CloseLine + "\n" == "</contacts>\r\n";
  }

  lemma {:induction false} TerminatedLast(parts: seq<string>, last: string, sep: string)
    ensures Terminated(parts + [last], sep) == Terminated(parts, sep) + (last + sep)
    decreases |parts|
  {
    if parts == [] {
      assert Terminated([last], sep) == last + sep + Terminated([], sep);
    } else {
      assert (parts + [last])[1..] == parts[1..] + [last];
      TerminatedLast(parts[1..], last, sep);
    }
  }

  // ---------------------------------------------------------------------------
  // Reading the file back

  /** A telephone line the contact store reads back as written: no '%' in the
      fields (the template's placeholders start with it), no '"' in the number
      (it would end the attribute early), and no line break anywhere. */
  predicate Readable(name: string, tel: VcfParser.Telephone)
  {
    var t := TypeSuffix(tel.telType);
    && '%' !in name && '%' !in t && '%' !in tel.number
    && '"' !in tel.number
    && '\n' !in name && '\n' !in t && '\n' !in tel.number
  }

  predicate AllReadable(cs: seq<VcfParser.Contact>, ext: Externals)
  {
    forall i, k :: 0 <= i < |cs| && 0 <= k < |cs[i].telNumbers| ==>
      Readable(DisplayName(cs[i], ext), cs[i].telNumbers[k])
  }

  /** The entry of the contact store for one telephone: the fixed number as key,
      the number, and the name with the type suffix. */
  function TelEntry(name: string, tel: VcfParser.Telephone, ext: Externals): XmlPerser.Entry
  {
    XmlPerser.Entry(ext.fixNumber(tel.number), tel.number, name + TypeSuffix(tel.telType))
  }

  function ContactEntries(c: VcfParser.Contact, ext: Externals): (r: seq<XmlPerser.Entry>)
    ensures |r| == |c.telNumbers|
  {
    seq(|c.telNumbers|, k requires 0 <= k < |c.telNumbers| => TelEntry(DisplayName(c, ext), c.telNumbers[k], ext))
  }

  /** The entries of all telephones of all contacts, in the order written. */
  function ExpectedEntries(cs: seq<VcfParser.Contact>, ext: Externals): (r: seq<XmlPerser.Entry>)
    ensures |r| == TelCount(cs)
  {
    if cs == [] then [] else ExpectedEntries(cs[..|cs| - 1], ext) + ContactEntries(cs[|cs| - 1], ext)
  }

  /** Reading back the file the loop writes gives one entry per telephone, in
      the order written, each with the number and the name and type shown. */
  lemma ReadBack(cs: seq<VcfParser.Contact>, ext: Externals)
    requires AllReadable(cs, ext)
    ensures XmlPerser.New(FileText(Expected(cs, ext)), ext).data == ExpectedEntries(cs, ext)
  {
    var lines := Expected(cs, ext);
    LinesReadBack(cs, ext);
    var mid := CrLines(lines);
    forall k | 0 <= k < |lines|
      ensures '\n' !in lines[k]
    {
      assert XmlPerser.LineEntries(mid[k], ext) == [ExpectedEntries(cs, ext)[k]];
    }
    FileLines(lines);
    FrameLinesSilent(ext);
    var f := (line: string) => XmlPerser.LineEntries(line, ext);
    assert [DeclLine, OpenLine] + mid + [CloseLine] + [""] == [DeclLine, OpenLine] + mid + [CloseLine, ""];
    FlatMapFrame(f, [DeclLine, OpenLine], mid, [CloseLine, ""], ExpectedEntries(cs, ext));
  }

  /** The file's lines as the store splits them: the two header lines, each
      contact line with its '\r', the closing line, and the empty text after the
      last line break. */
  lemma FileLines(lines: seq<string>)
    requires forall k :: 0 <= k < |lines| ==> '\n' !in lines[k]
    ensures Lines(FileText(lines)) == [DeclLine, OpenLine] + CrLines(lines) + [CloseLine] + [""]
  {
    var parts := [DeclLine, OpenLine] + CrLines(lines) + [CloseLine];
    forall k | 0 <= k < |parts|
      ensures !Contains(parts[k], "\n")
    {
      assert '\n' !in parts[k];
      NotContainsChar(parts[k], '\n');
    }
    NotContainsShorter("", "\n");
    SplitTerminated(parts, "\n", "");
    assert FileText(lines) + "" == FileText(lines);
  }

  /** Every contact line, followed by '\r', reads back as its entry. */
  lemma {:induction false} LinesReadBack(cs: seq<VcfParser.Contact>, ext: Externals)
    requires AllReadable(cs, ext)
    ensures var lines := Expected(cs, ext);
      forall k :: 0 <= k < |lines| ==>
        '\n' !in lines[k] && XmlPerser.LineEntries(CrLines(lines)[k], ext) == [ExpectedEntries(cs, ext)[k]]
    decreases |cs|
  {
    if cs != [] {
      var init := cs[..|cs| - 1];
      var c := cs[|cs| - 1];
      assert AllReadable(init, ext) by {
        forall i, k | 0 <= i < |init| && 0 <= k < |init[i].telNumbers|
          ensures Readable(DisplayName(init[i], ext), init[i].telNumbers[k])
        {
          assert init[i] == cs[i];
        }
      }
      LinesReadBack(init, ext);
      var a := Expected(init, ext);
      var b := ContactLines(c, ext);
      forall k | 0 <= k < |b|
        ensures '\n' !in b[k] && XmlPerser.LineEntries(b[k] + "\r", ext) == [ContactEntries(c, ext)[k]]
      {
        TelReadBack(DisplayName(c, ext), c.telNumbers[k], ext);
      }
      var ea := ExpectedEntries(init, ext);
      var eb := ContactEntries(c, ext);
      assert Expected(cs, ext) == a + b;
      assert ExpectedEntries(cs, ext) == ea + eb;
      forall k | 0 <= k < |a + b|
        ensures '\n' !in (a + b)[k] && XmlPerser.LineEntries(CrLines(a + b)[k], ext) == [(ea + eb)[k]]
      {
        if k < |a| {
          assert (a + b)[k] == a[k] && CrLines(a + b)[k] == CrLines(a)[k] && (ea + eb)[k] == ea[k];
        } else {
          assert (a + b)[k] == b[k - |a|] && (ea + eb)[k] == eb[k - |a|];
        }
      }
    }
  }

  /** One telephone line, followed by '\r', reads back as its entry. */
  lemma TelReadBack(name: string, tel: VcfParser.Telephone, ext: Externals)
    requires Readable(name, tel)
    ensures '\n' !in TelLine(name, tel)
    ensures XmlPerser.LineEntries(TelLine(name, tel) + "\r", ext) == [TelEntry(name, tel, ext)]
  {
    var t := TypeSuffix(tel.telType);
    XmlPerser.ReadRecord(name, t, tel.number, "\r", ext);
    VcfParser.FmtXmlPlain(name, t, tel.number);
    RecordNoNewline();
  }

  /** The template's literal parts hold no line break. */
  lemma RecordNoNewline()
    ensures '\n' !in VcfParser.XmlHead && '\n' !in VcfParser.XmlMid && '\n' !in VcfParser.XmlTail
  {
    XmlPerser.TailShape();
    HeadNoNewline();
    TailFirstNoNewline();
    TailMidNoNewline();
    TailEndNoNewline();
  }

  lemma HeadNoNewline()
    ensures '\n' !in VcfParser.XmlHead && '\n' !in VcfParser.XmlMid
  {
  }

  lemma TailFirstNoNewline()
    ensures '\n' !in XmlPerser.TailFirst
  {
  }

  lemma TailMidNoNewline()
    ensures '\n' !in XmlPerser.TailMid
  {
  }

  lemma TailEndNoNewline()
    ensures '\n' !in XmlPerser.TailInfo && '\n' !in XmlPerser.TailLast
  {
  }

  /** The declaration, `<contacts>`, `</contacts>` and the empty last piece hold
      no contact. */
  lemma FrameLinesSilent(ext: Externals)
    ensures XmlPerser.LineEntries(DeclLine, ext) == []
    ensures XmlPerser.LineEntries(OpenLine, ext) == []
    ensures XmlPerser.LineEntries(CloseLine, ext) == []
    ensures XmlPerser.LineEntries("", ext) == []
  {
    DeclHasNoOpenMark();
    NoMatchWithoutOpenMark(DeclLine);
    NoMatchWithoutOpenMark(OpenLine);
    NoMatchWithoutOpenMark(CloseLine);
    NoMatchWithoutOpenMark("");
  }

  lemma NoMatchWithoutOpenMark(line: string)
    requires forall p: nat :: !OccursAt(line, p, XmlPerser.OpenMark)
    ensures XmlPerser.Captures(line).None?
  {
    XmlPerser.CapturesSpec(line);
  }

  /** The only '<' of the declaration is followed by '?', not by "contact". */
  lemma DeclHasNoOpenMark()
    ensures forall p: nat :: !OccursAt(DeclLine, p, XmlPerser.OpenMark)
  {
    var m := XmlPerser.OpenMark;
    var d := DeclLine;
    assert m[0] == '<' && m[1] == 'c' && |m| == 15;
    assert |d| == 22 && d[1] == '?';
    assert forall q :: 1 <= q < |d| ==> d[q] != '<';
    forall p: nat
      ensures !OccursAt(d, p, m)
    {
      if p + |m| <= |d| {
        if p == 0 {
          assert d[p..p + |m|][1] == d[1];
        } else {
          assert d[p..p + |m|][0] == d[p];
        }
      }
    }
  }

  /** Lines that give nothing, lines that give one entry each, then lines that
      give nothing: together they give those entries. */
  lemma FlatMapFrame<A, B>(f: A -> seq<B>, a: seq<A>, m: seq<A>, b: seq<A>, ys: seq<B>)
    requires forall k :: 0 <= k < |a| ==> f(a[k]) == []
    requires forall k :: 0 <= k < |b| ==> f(b[k]) == []
    requires |m| == |ys| && forall k :: 0 <= k < |m| ==> f(m[k]) == [ys[k]]
    ensures FlatMap(f, a + m + b) == ys
  {
    FlatMapAppend(f, a + m, b);
    FlatMapAppend(f, a, m);
    FlatMapEmpty(f, a);
    FlatMapEmpty(f, b);
    FlatMapSingletons(f, m, ys);
  }

  lemma {:induction false} FlatMapSingletons<A, B>(f: A -> seq<B>, m: seq<A>, ys: seq<B>)
    requires |m| == |ys| && forall k :: 0 <= k < |m| ==> f(m[k]) == [ys[k]]
    ensures FlatMap(f, m) == ys
    decreases |m|
  {
    if m != [] {
      FlatMapSingletons(f, m[1..], ys[1..]);
      assert ys == [ys[0]] + ys[1..];
    }
  }
}
