/** Parsing of vCard text into contacts: the record split of `Vcf::get_vcards`,
    the header captures and telephone captures of `Contact::new`, the derived
    accessors, and the one-line XML record of `Contact::fmt_xml`. The regexes of
    the source are hand-coded as line matchers. */
module VcfParser {
  import opened Strings
  import opened Foreign
  import ErrorFlg

  // The file-level codes this file declares again; they equal ErrorFlg's.
  const ERR_FILE_NOT_FOUND: int := 1
  const ERR_CREATE_FILE: int := 2
  const ERR_WRITE_FILE: int := 3
  const ERR_READ_FILE: int := 4

  lemma CodesAgreeWithErrorFlg()
    ensures ERR_FILE_NOT_FOUND == ErrorFlg.ERR_FILE_NOT_FOUND
    ensures ERR_CREATE_FILE == ErrorFlg.ERR_CREATE_FILE
    ensures ERR_WRITE_FILE == ErrorFlg.ERR_WRITE_FILE
    ensures ERR_READ_FILE == ErrorFlg.ERR_READ_FILE
  {
  }

  datatype Telephone = Telephone(telType: string, number: string)

  datatype Contact = Contact(
    fullName: string,
    name: string,
    xFirstName: string,
    xLastName: string,
    categories: string,
    organization: string,
    telNumbers: seq<Telephone>)

  // ---------------------------------------------------------------------------
  // Records

  const EndVcard := "END:VCARD"

  /** The terminator has no proper border: its first char does not recur in it. */
  lemma EndVcardBorderFree()
    ensures EndVcard != [] && EndVcard[0] !in EndVcard[1..]
  {
    assert EndVcard[1..] == "ND:VCARD";
  }

  /** `get_vcards`: the text before each non-overlapping `END:VCARD`, in order.
      Whatever follows the last terminator is dropped, even when it is not empty. */
  function GetVcards(data: string): (blocks: seq<string>)
    ensures forall i :: 0 <= i < |blocks| ==> !Contains(blocks[i], EndVcard)
    ensures exists tail :: !Contains(tail, EndVcard) && data == Terminated(blocks, EndVcard) + tail
  {
    var parts := Split(data, EndVcard);
    SplitPiecesAvoidSep(data, EndVcard);
    SplitJoin(data, EndVcard);
    JoinIsTerminatedPlusLast(parts, EndVcard);
    assert !Contains(parts[|parts| - 1], EndVcard);
    parts[..|parts| - 1]
  }

  /** The converse: records each followed by `END:VCARD`, then any tail without
      it, are split back into exactly those records. */
  lemma GetVcardsOfTerminated(blocks: seq<string>, tail: string)
    requires forall i :: 0 <= i < |blocks| ==> !Contains(blocks[i], EndVcard)
    requires !Contains(tail, EndVcard)
    ensures GetVcards(Terminated(blocks, EndVcard) + tail) == blocks
  {
    EndVcardBorderFree();
    SplitTerminated(blocks, EndVcard, tail);
    assert (blocks + [tail])[..|blocks|] == blocks;
  }

  /** Text after the last terminator never becomes a record. */
  lemma TrailingTextDropped(block: string, tail: string)
    requires !Contains(block, EndVcard) && !Contains(tail, EndVcard)
    ensures GetVcards(block + EndVcard + tail) == [block]
  {
    assert Terminated([block], EndVcard) == block + EndVcard + [];
    assert Terminated([block], EndVcard) + tail == block + EndVcard + tail;
    GetVcardsOfTerminated([block], tail);
  }

  // ---------------------------------------------------------------------------
  // Header captures: `(?m)^<header>(.*)$`

  /** The headers `Contact::new` captures: a literal prefix, or the pattern
      `item[\d]*.ORG:` of the organization line. */
  datatype Header = Literal(prefix: string) | ItemOrg

  /** Length of the run of ASCII digits at the front of `s`. */
  function DigitRun(s: string): (n: nat)
    ensures n <= |s|
    ensures forall i :: 0 <= i < n ==> IsAsciiDigit(s[i])
    ensures n < |s| ==> !IsAsciiDigit(s[n])
  {
    if s != [] && IsAsciiDigit(s[0]) then 1 + DigitRun(s[1..]) else 0
  }

  /** What `item[\d]*.ORG:(.*)` captures of a line. The digit run is greedy and the
      `.` is any char but a newline, so only two splits can match: the whole
      digit run followed by one char, or all but the last digit with that digit
      taken by the `.`. */
  function ItemOrgRest(line: string): Option<string>
  {
    if !("item" <= line) then None
    else
      var d := DigitRun(line[4..]);
      if 4 + d < |line| && line[4 + d] != '\n' && OccursAt(line, 5 + d, "ORG:") then Some(line[9 + d..])
      else if d >= 1 && OccursAt(line, 4 + d, "ORG:") then Some(line[8 + d..])
      else None
  }

  /** What a header's regex captures of one line, if it matches there. */
  function HeaderRest(h: Header, line: string): Option<string>
  {
    match h
    case Literal(p) => if p <= line then Some(line[|p|..]) else None
    case ItemOrg => ItemOrgRest(line)
  }

  /** Every capture of the `item[\d]*.ORG:` regex comes from a line of the shape
      it describes. */
  lemma ItemOrgSound(line: string) returns (digits: string, c: char)
    requires ItemOrgRest(line).Some?
    ensures AllAsciiDigits(digits) && c != '\n'
    ensures line == "item" + (digits + ([c] + ("ORG:" + ItemOrgRest(line).value)))
  {
    var t := line[4..];
    var d := DigitRun(t);
    assert line == "item" + t;
    var i: nat := if 4 + d < |line| && line[4 + d] != '\n' && OccursAt(line, 5 + d, "ORG:") then d else d - 1;
    assert line[5 + i..9 + i] == "ORG:";
    assert ItemOrgRest(line).value == line[9 + i..];
    SliceOfDrop(line, 4, i);
    digits, c := t[..i], t[i];
    Reassemble(t, i);
  }

  lemma SliceOfDrop(line: string, k: nat, i: nat)
    requires k + i + 5 <= |line|
    ensures line[k..][i + 1..i + 5] == line[k + i + 1..k + i + 5]
    ensures line[k..][i + 5..] == line[k + i + 5..]
  {
  }

  /** A text with "ORG:" right after index `i` is the text before `i`, the char at
      `i`, "ORG:" and the rest. */
  lemma Reassemble(t: string, i: nat)
    requires i + 5 <= |t| && t[i + 1..i + 5] == "ORG:"
    ensures t == t[..i] + ([t[i]] + ("ORG:" + t[i + 5..]))
  {
    assert t[i + 1..] == t[i + 1..i + 5] + t[i + 5..];
    assert t[i..] == [t[i]] + t[i + 1..];
    assert t == t[..i] + t[i..];
  }

  /** Every line of the shape `item<digits><char>ORG:<rest>` is captured with that rest. */
  lemma ItemOrgComplete(digits: string, c: char, rest: string)
    requires AllAsciiDigits(digits) && c != '\n'
    ensures ItemOrgRest("item" + (digits + ([c] + ("ORG:" + rest)))) == Some(rest)
  {
    var t := digits + ([c] + ("ORG:" + rest));
    var line := "item" + t;
    var k := |digits|;
    assert line[..4] == "item";
    assert line[4..] == t;
    var d := DigitRun(t);
    OrgAfterDigits(digits, c, rest);
    assert line[5 + k..9 + k] == t[k + 1..k + 5];
    assert line[9 + k..] == t[k + 5..];
    if d == k + 1 {
      // `c` is a digit too; "ORG:" cannot also start one place further on.
      if 9 + d <= |line| {
        assert line[5 + d..9 + d][0] == t[k + 2];
      }
    }
  }

  /** The digit run of `<digits><char>ORG:<rest>` stops at the char or just after it. */
  lemma OrgAfterDigits(digits: string, c: char, rest: string)
    requires AllAsciiDigits(digits)
    ensures var t := digits + ([c] + ("ORG:" + rest));
      var k := |digits|;
      (DigitRun(t) == k || DigitRun(t) == k + 1) &&
      t[k] == c && t[k + 1..k + 5] == "ORG:" && t[k + 2] == 'R' && t[k + 5..] == rest
  {
    var u := [c] + ("ORG:" + rest);
    var t := digits + u;
    var k := |digits|;
    DigitRunOfDigits(digits, u);
    assert t[k..] == u;
    assert t[k + 1..] == "ORG:" + rest;
    assert t[k + 1] == 'O';
  }

  lemma DigitRunOfDigits(digits: string, rest: string)
    requires AllAsciiDigits(digits)
    ensures DigitRun(digits + rest) >= |digits|
    decreases |digits|
  {
    if digits != [] {
      DigitRunOfDigits(digits[1..], rest);
      assert (digits + rest)[1..] == digits[1..] + rest;
    }
  }

  /** The capture of the first line the header matches, if any. */
  function FirstRest(h: Header, lines: seq<string>): Option<string>
  {
    if lines == [] then None
    else if HeaderRest(h, lines[0]).Some? then HeaderRest(h, lines[0])
    else FirstRest(h, lines[1..])
  }

  /** `FirstRest` finds nothing exactly when no line matches; otherwise it
      returns the capture of a matching line with no match before it. */
  lemma {:induction false} FirstRestSpec(h: Header, lines: seq<string>)
    ensures FirstRest(h, lines).None? <==> forall i :: 0 <= i < |lines| ==> HeaderRest(h, lines[i]).None?
    ensures FirstRest(h, lines).Some? ==>
      exists i :: 0 <= i < |lines| && HeaderRest(h, lines[i]) == FirstRest(h, lines) &&
        forall j :: 0 <= j < i ==> HeaderRest(h, lines[j]).None?
    decreases |lines|
  {
    if lines != [] && HeaderRest(h, lines[0]).None? {
      FirstRestSpec(h, lines[1..]);
      assert forall i :: 1 <= i < |lines| ==> lines[1..][i - 1] == lines[i];
      if FirstRest(h, lines).Some? {
        var k :| 0 <= k < |lines[1..]| && HeaderRest(h, lines[1..][k]) == FirstRest(h, lines[1..]) &&
          forall j :: 0 <= j < k ==> HeaderRest(h, lines[1..][j]).None?;
        assert HeaderRest(h, lines[k + 1]) == FirstRest(h, lines);
      }
    }
  }

  /** `Contact::capture`: the first matching line's remainder without trailing
      whitespace, or "" when no line matches; then widened by kanaria. */
  function Capture(h: Header, vcard: string, ext: Externals): string
  {
    var raw := match FirstRest(h, Lines(vcard))
      case None => ""
      case Some(rest) => TrimEnd(rest);
    ext.wide(raw)
  }

  /** `Capture` widens "" when no line matches; otherwise it widens the trimmed
      rest of the first matching line, so later matching lines are ignored. */
  lemma CaptureSpec(h: Header, vcard: string, ext: Externals)
    ensures (forall i :: 0 <= i < |Lines(vcard)| ==> HeaderRest(h, Lines(vcard)[i]).None?) ==>
      Capture(h, vcard, ext) == ext.wide("")
    ensures forall i :: 0 <= i < |Lines(vcard)| ==>
      (HeaderRest(h, Lines(vcard)[i]).Some? &&
       (forall j :: 0 <= j < i ==> HeaderRest(h, Lines(vcard)[j]).None?)) ==>
      Capture(h, vcard, ext) == ext.wide(TrimEnd(HeaderRest(h, Lines(vcard)[i]).value))
  {
    FirstRestSpec(h, Lines(vcard));
  }

  // ---------------------------------------------------------------------------
  // Telephone captures: `(?m)^[item\d\.]*TEL(;TYPE=([a-zA-Z]*))*:(.*)$`

  predicate IsItemChar(c: char)
  {
    c == 'i' || c == 't' || c == 'e' || c == 'm' || IsAsciiDigit(c) || c == '.'
  }

  function ItemRun(s: string): (n: nat)
    ensures n <= |s|
    ensures forall i :: 0 <= i < n ==> IsItemChar(s[i])
    ensures n < |s| ==> !IsItemChar(s[n])
  {
    if s != [] && IsItemChar(s[0]) then 1 + ItemRun(s[1..]) else 0
  }

  function LetterRun(s: string): (n: nat)
    ensures n <= |s|
    ensures forall i :: 0 <= i < n ==> IsAsciiLetter(s[i])
    ensures n < |s| ==> !IsAsciiLetter(s[n])
  {
    if s != [] && IsAsciiLetter(s[0]) then 1 + LetterRun(s[1..]) else 0
  }

  const TypeAttr := ";TYPE="

  /** Reads `(;TYPE=([a-zA-Z]*))*:(.*)`; `last` is the most recent TYPE value,
      which is what the repeated group reports. Yields (type, text after ':'). */
  function TypeAttrs(s: string, last: string): Option<(string, string)>
    decreases |s|
  {
    if TypeAttr <= s then
      var n := LetterRun(s[6..]);
      TypeAttrs(s[6 + n..], s[6..6 + n])
    else if s != [] && s[0] == ':' then Some((last, s[1..]))
    else None
  }

  /** What the telephone regex captures of one line: the type ("" without a TYPE
      attribute) and the raw number text. The item-prefix class does not contain
      'T', so its run is always taken whole. */
  function TelLine(line: string): Option<(string, string)>
  {
    var p := ItemRun(line);
    if OccursAt(line, p, "TEL") then TypeAttrs(line[p + 3..], "") else None
  }

  /** A list of TYPE attributes written out, followed by `tail`. */
  function WithAttrs(attrs: seq<string>, tail: string): string
  {
    if attrs == [] then tail else TypeAttr + (attrs[0] + WithAttrs(attrs[1..], tail))
  }

  function LastOr(attrs: seq<string>, default: string): string
  {
    if attrs == [] then default else attrs[|attrs| - 1]
  }

  predicate AllItemChars(s: string) { forall i :: 0 <= i < |s| ==> IsItemChar(s[i]) }

  predicate AllLetters(s: string) { forall i :: 0 <= i < |s| ==> IsAsciiLetter(s[i]) }

  /** Every line of the regex's shape is captured: the type is the last TYPE value
      ("" without one) and the number is everything after the ':'. */
  lemma TelLineComplete(prefix: string, attrs: seq<string>, rest: string)
    requires AllItemChars(prefix)
    requires forall i :: 0 <= i < |attrs| ==> AllLetters(attrs[i])
    ensures TelLine(prefix + ("TEL" + WithAttrs(attrs, ":" + rest))) == Some((LastOr(attrs, ""), rest))
  {
    var w := WithAttrs(attrs, ":" + rest);
    var u := "TEL" + w;
    var line := prefix + u;
    var k := |prefix|;
    ItemRunOfItemChars(prefix, u);
    assert line[k..] == u;
    assert line[k] == 'T';
    assert line[k..k + 3] == u[..3] == "TEL";
    assert line[k + 3..] == w;
    TypeAttrsComplete(attrs, rest, "");
  }

  lemma ItemRunOfItemChars(prefix: string, rest: string)
    requires AllItemChars(prefix)
    ensures ItemRun(prefix + rest) >= |prefix|
    decreases |prefix|
  {
    if prefix != [] {
      ItemRunOfItemChars(prefix[1..], rest);
      assert (prefix + rest)[1..] == prefix[1..] + rest;
    }
  }

  lemma {:induction false} TypeAttrsComplete(attrs: seq<string>, rest: string, last: string)
    requires forall i :: 0 <= i < |attrs| ==> AllLetters(attrs[i])
    ensures TypeAttrs(WithAttrs(attrs, ":" + rest), last) == Some((LastOr(attrs, last), rest))
    decreases |attrs|
  {
    var s := WithAttrs(attrs, ":" + rest);
    if attrs == [] {
      assert s[0] == ':';
      assert s[1..] == rest;
    } else {
      var a := attrs[0];
      var tail := WithAttrs(attrs[1..], ":" + rest);
      assert s == TypeAttr + (a + tail);
      assert s[..6] == TypeAttr;
      assert s[6..] == a + tail;
      AttrsHead(attrs[1..], rest);
      LetterRunOfLetters(a, tail);
      assert s[6..6 + |a|] == a;
      assert s[6 + |a|..] == tail;
      TypeAttrsComplete(attrs[1..], rest, a);
      if |attrs| > 1 {
        assert attrs[1..][|attrs| - 2] == attrs[|attrs| - 1];
      }
    }
  }

  lemma AttrsHead(attrs: seq<string>, rest: string)
    ensures WithAttrs(attrs, ":" + rest) != []
    ensures !IsAsciiLetter(WithAttrs(attrs, ":" + rest)[0])
  {
  }

  lemma LetterRunOfLetters(a: string, tail: string)
    requires AllLetters(a)
    requires tail != [] && !IsAsciiLetter(tail[0])
    ensures LetterRun(a + tail) == |a|
    decreases |a|
  {
    if a == [] {
      assert a + tail == tail;
    } else {
      LetterRunOfLetters(a[1..], tail);
      assert (a + tail)[1..] == a[1..] + tail;
    }
  }

  /** Every capture comes from a line of the regex's shape. */
  lemma TelLineSound(line: string) returns (prefix: string, attrs: seq<string>)
    requires TelLine(line).Some?
    ensures AllItemChars(prefix)
    ensures forall i :: 0 <= i < |attrs| ==> AllLetters(attrs[i])
    ensures line == prefix + ("TEL" + WithAttrs(attrs, ":" + TelLine(line).value.1))
    ensures TelLine(line).value.0 == LastOr(attrs, "")
  {
    var p := ItemRun(line);
    prefix := line[..p];
    assert line[p..p + 3] == "TEL";
    attrs := TypeAttrsSound(line[p + 3..], "");
    DropSplit(line, p, p + 3);
    TakeDrop(line, p);
  }

  lemma {:induction false} TypeAttrsSound(s: string, last: string) returns (attrs: seq<string>)
    requires TypeAttrs(s, last).Some?
    ensures forall i :: 0 <= i < |attrs| ==> AllLetters(attrs[i])
    ensures s == WithAttrs(attrs, ":" + TypeAttrs(s, last).value.1)
    ensures TypeAttrs(s, last).value.0 == LastOr(attrs, last)
    decreases |s|
  {
    if TypeAttr <= s {
      var n := LetterRun(s[6..]);
      var a := s[6..6 + n];
      assert TypeAttrs(s, last) == TypeAttrs(s[6 + n..], a);
      var more := TypeAttrsSound(s[6 + n..], a);
      attrs := [a] + more;
      LettersOfRun(s[6..], n);
      assert s[6..][..n] == a;
      AttrsCons(a, more, last);
      AttrsStep(s, a, more, TypeAttrs(s, last).value.1);
    } else {
      attrs := [];
      assert s[0] == ':';
      TakeDrop(s, 1);
    }
  }

  lemma LettersOfRun(s: string, n: nat)
    requires n == LetterRun(s)
    ensures AllLetters(s[..n])
  {
  }

  lemma AttrsCons(a: string, more: seq<string>, last: string)
    requires AllLetters(a)
    requires forall i :: 0 <= i < |more| ==> AllLetters(more[i])
    ensures forall i :: 0 <= i < |[a] + more| ==> AllLetters(([a] + more)[i])
    ensures LastOr([a] + more, last) == LastOr(more, a)
  {
  }

  lemma AttrsStep(s: string, a: string, more: seq<string>, v: string)
    requires TypeAttr <= s && 6 + |a| <= |s| && s[6..6 + |a|] == a
    requires s[6 + |a|..] == WithAttrs(more, ":" + v)
    ensures s == WithAttrs([a] + more, ":" + v)
  {
    assert ([a] + more)[1..] == more;
    assert s[6..] == a + s[6 + |a|..];
    assert s == s[..6] + s[6..];
  }

  /** The telephone a line contributes: none unless the raw number text is
      non-empty; the stored number has its trailing whitespace trimmed. */
  function TelOfLine(line: string): (r: seq<Telephone>)
    ensures |r| <= 1
  {
    match TelLine(line)
    case None => []
    case Some((t, raw)) => if raw != "" then [Telephone(t, TrimEnd(raw))] else []
  }

  /** A matching line is kept exactly when its raw number text is non-empty; a
      whitespace-only number is kept, as "". */
  lemma TelKeptIffNonEmpty(line: string)
    requires TelLine(line).Some?
    ensures |TelOfLine(line)| == 1 <==> TelLine(line).value.1 != ""
    ensures |TelOfLine(line)| == 1 ==>
      TelOfLine(line)[0] == Telephone(TelLine(line).value.0, TrimEnd(TelLine(line).value.1))
    ensures (forall i :: 0 <= i < |TelLine(line).value.1| ==> IsWhitespace(TelLine(line).value.1[i])) ==>
      forall t :: t in TelOfLine(line) ==> t.number == ""
  {
  }

  /** `cap_tel_numbers`: one telephone per matching line with a non-empty number,
      in line order. */
  function CapTelNumbers(vcard: string): (r: seq<Telephone>)
    ensures |r| <= |Lines(vcard)|
  {
    FlatMapShort(TelOfLine, Lines(vcard));
    FlatMap(TelOfLine, Lines(vcard))
  }

  /** Telephones come out in line order: the text before a newline contributes
      its telephones first. */
  lemma CapTelNumbersAppend(a: string, b: string)
    ensures CapTelNumbers(a + "\n" + b) == CapTelNumbers(a) + CapTelNumbers(b)
  {
    SplitAtChar(a, '\n', b);
    FlatMapAppend(TelOfLine, Lines(a), Lines(b));
  }

  // ---------------------------------------------------------------------------
  // Contact

  /** `Contact::new`. */
  function ParseContact(vcard: string, ext: Externals): Contact
  {
    Contact(
      Capture(Literal("FN:"), vcard, ext),
      Capture(Literal("N:"), vcard, ext),
      Capture(Literal("X-PHONETIC-FIRST-NAME:"), vcard, ext),
      Capture(Literal("X-PHONETIC-LAST-NAME:"), vcard, ext),
      Capture(Literal("CATEGORIES:"), vcard, ext),
      Capture(ItemOrg, vcard, ext),
      CapTelNumbers(vcard))
  }

  /** `is_empty`: no telephone, whatever the other fields hold. */
  predicate IsEmpty(c: Contact)
  {
    |c.telNumbers| == 0
  }

  /** A parsed record is empty exactly when no line matches the telephone regex
      with a non-empty number. */
  lemma ParsedIsEmptyIff(vcard: string, ext: Externals)
    ensures IsEmpty(ParseContact(vcard, ext)) <==>
      forall i :: 0 <= i < |Lines(vcard)| ==>
        TelLine(Lines(vcard)[i]).None? || TelLine(Lines(vcard)[i]).value.1 == ""
  {
    FlatMapEmpty(TelOfLine, Lines(vcard));
  }

  /** `full_name`: the FN value, or the organization when FN is empty. */
  function FullName(c: Contact): string
  {
    if c.fullName != "" then c.fullName else c.organization
  }

  /** Company entries without FN still have a name; the name is empty only when
      both FN and the organization are. */
  lemma FullNameFallback(c: Contact)
    ensures FullName(c) == c.fullName || FullName(c) == c.organization
    ensures FullName(c) == "" <==> c.fullName == "" && c.organization == ""
  {
  }

  /** The one-char string at the front of `s`, or "" for "". */
  function FirstChar(s: string): string
  {
    if s == [] then [] else [s[0]]
  }

  /** `name_index`: the first char of the hiragana form of the phonetic last name,
      else of FN, else of the organization; "" if that text is empty. The source
      takes element 1 of `split("")`, which is the first char. */
  function NameIndex(c: Contact, ext: Externals): (r: string)
    ensures |r| <= 1
    ensures c.xLastName != "" ==> r == FirstChar(ext.hira(c.xLastName))
    ensures c.xLastName == "" && c.fullName != "" ==> r == FirstChar(ext.hira(c.fullName))
    ensures c.xLastName == "" && c.fullName == "" ==> r == FirstChar(ext.hira(c.organization))
  {
    var target :=
      if c.xLastName != "" then c.xLastName
      else if c.fullName != "" then c.fullName
      else c.organization;
    var hira := ext.hira(target);
    var v := Split(hira, "");
    v[1]
  }

  // ---------------------------------------------------------------------------
  // The XML record

  const NameToken := Token("name")
  const TypeToken := Token("type")
  const NumberToken := Token("number")

  const XmlHead := "<contact name=\""
  const XmlMid := "\" number=\""
  const XmlTail := "\"" + " firstname=\"\""
    + (" lastname=\"\"" + " phone=\"\"" + " mobile=\"\"" + " email=\"\"" + " address=\"\""
       + " city=\"\"" + " state=\"\"" + " zip=\"\"" + " comment=\"\"" + " id=\"\"")
    + " info=\"\""
    + (" presence=\"0\"" + " directory=\"0\"" + "/>")

  /** The template with a given head and tail around `%name%%type%" number="%number%`. */
  function Template(head: string, tail: string): string
  {
    head + (NameToken + (TypeToken + (XmlMid + (NumberToken + tail))))
  }

  /** The fixed template of `fmt_xml`. */
  const XmlTemplate := Template(XmlHead, XmlTail)

  /** `fmt_xml`: `%name%`, then `%type%`, then `%number%` replaced in the template.
      A later token inside an earlier inserted value is replaced too. */
  function FmtXml(name: string, telType: string, number: string): string
  {
    ReplaceAll(ReplaceAll(ReplaceAll(XmlTemplate, NameToken, name), TypeToken, telType), NumberToken, number)
  }

  lemma XmlTailShape()
    ensures '%' !in XmlTail && XmlTail != [] && XmlTail[0] == '"'
  {
  }

  /** When no field holds a '%', the record carries `name ++ telType` as the name
      attribute and `number` as the number attribute, the rest of the template
      unchanged. */
  lemma FmtXmlPlain(name: string, telType: string, number: string)
    requires '%' !in name && '%' !in telType && '%' !in number
    ensures FmtXml(name, telType, number) == XmlHead + name + telType + XmlMid + number + XmlTail
  {
    XmlTailShape();
    FillTemplate(XmlHead, XmlTail, name, telType, number);
  }

  /** Filling the three tokens of a template whose fixed text holds no '%'. */
  lemma FillTemplate(head: string, tail: string, name: string, telType: string, number: string)
    requires '%' !in head && '%' !in tail && tail != [] && tail[0] == '"'
    requires '%' !in name && '%' !in telType && '%' !in number
    ensures ReplaceAll(ReplaceAll(ReplaceAll(Template(head, tail), NameToken, name), TypeToken, telType), NumberToken, number)
         == head + name + telType + XmlMid + number + tail
  {
    var r2 := XmlMid + (NumberToken + tail);
    var r1 := TypeToken + r2;
    FillName(head, tail, name);
    AppendAssoc(head, name, r1);
    FillType(head + name, tail, telType);
    AppendAssoc(head + name, telType, r2);
    FillNumber(head + name + telType, tail, number);
  }

  /** The text after `%type%` is left alone by any token whose name does not start
      with '"'. */
  lemma AfterType(tail: string, v: string, to: string)
    requires '%' !in tail && tail != [] && tail[0] == '"'
    requires '%' !in v && v != "number" && v != [] && v[0] != '"'
    ensures ReplaceAll(XmlMid + (NumberToken + tail), Token(v), to) == XmlMid + (NumberToken + tail)
  {
    ReplaceSkip(XmlMid, NumberToken + tail, Token(v), to);
    KeepToken("number", v, tail, to);
    ReplaceAbsent(tail, Token(v), to);
  }

  lemma FillName(head: string, tail: string, name: string)
    requires '%' !in head && '%' !in tail && tail != [] && tail[0] == '"'
    ensures ReplaceAll(Template(head, tail), NameToken, name)
         == head + (name + (TypeToken + (XmlMid + (NumberToken + tail))))
  {
    var r2 := XmlMid + (NumberToken + tail);
    var r1 := TypeToken + r2;
    ReplaceSkip(head, NameToken + r1, NameToken, name);
    ReplaceHit(r1, NameToken, name);
    KeepToken("type", "name", r2, name);
    AfterType(tail, "name", name);
  }

  lemma FillType(head: string, tail: string, telType: string)
    requires '%' !in head && '%' !in tail && tail != [] && tail[0] == '"'
    ensures ReplaceAll(head + (TypeToken + (XmlMid + (NumberToken + tail))), TypeToken, telType)
         == head + (telType + (XmlMid + (NumberToken + tail)))
  {
    var r2 := XmlMid + (NumberToken + tail);
    ReplaceSkip(head, TypeToken + r2, TypeToken, telType);
    ReplaceHit(r2, TypeToken, telType);
    AfterType(tail, "type", telType);
  }

  lemma FillNumber(head: string, tail: string, number: string)
    requires '%' !in head && '%' !in tail
    ensures ReplaceAll(head + (XmlMid + (NumberToken + tail)), NumberToken, number)
         == head + XmlMid + number + tail
  {
    assert head + (XmlMid + (NumberToken + tail)) == (head + XmlMid) + (NumberToken + tail);
    ReplaceSkip(head + XmlMid, NumberToken + tail, NumberToken, number);
    ReplaceHit(tail, NumberToken, number);
    ReplaceAbsent(tail, NumberToken, number);
  }

  /** Tokens are not escaped: a name ending in "%type" fuses with the template's
      own `%type%`, which is why `FmtXmlPlain` asks for fields without '%'. The
      result holds `telType`, then the stray "type%", where the name should be. */
  lemma FmtXmlTokenInName(telType: string)
    requires '%' !in telType
    ensures ReplaceAll(ReplaceAll(XmlTemplate, NameToken, ['%'] + "type"), TypeToken, telType)
         == XmlHead + (telType + ("type" + (['%'] + (XmlMid + (NumberToken + XmlTail)))))
  {
    XmlTailShape();
    var r2 := XmlMid + (NumberToken + XmlTail);
    FillName(XmlHead, XmlTail, ['%'] + "type");
    FuseToken("type", r2);
    FillTypeAfterStray(XmlHead, XmlTail, telType);
  }

  lemma FillTypeAfterStray(head: string, tail: string, telType: string)
    requires '%' !in head && '%' !in tail && tail != [] && tail[0] == '"'
    ensures ReplaceAll(head + (TypeToken + ("type" + (['%'] + (XmlMid + (NumberToken + tail))))), TypeToken, telType)
         == head + (telType + ("type" + (['%'] + (XmlMid + (NumberToken + tail)))))
  {
    var r2 := XmlMid + (NumberToken + tail);
    var x := "type" + (['%'] + r2);
    ReplaceSkip(head, TypeToken + x, TypeToken, telType);
    ReplaceHit(x, TypeToken, telType);
    ReplaceSkip("type", ['%'] + r2, TypeToken, telType);
    var y := ['%'] + r2;
    assert y[1] == '"';
    ReplaceMiss(y, 1, TypeToken, telType);
    assert y[1..] == r2;
    AfterType(tail, "type", telType);
  }

  /** "%w" followed by the token `%w%` reads as that token followed by "w%". */
  lemma FuseToken(w: string, x: string)
    ensures (['%'] + w) + (Token(w) + x) == Token(w) + (w + (['%'] + x))
  {
    var l := (['%'] + w) + (Token(w) + x);
    var r := Token(w) + (w + (['%'] + x));
    assert |l| == |r|;
    forall i | 0 <= i < |l|
      ensures l[i] == r[i]
    {
      if i == 0 {
      } else if i <= |w| {
        assert l[i] == w[i - 1] == r[i];
      } else if i == |w| + 1 {
      } else if i <= 2 * |w| + 1 {
        assert l[i] == w[i - |w| - 2] == r[i];
      } else if i == 2 * |w| + 2 {
      } else {
        assert l[i] == x[i - 2 * |w| - 3] == r[i];
      }
    }
  }
}
