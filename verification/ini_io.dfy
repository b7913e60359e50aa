/** The in-memory part of `IniIo`: the MicroSIP.ini call log as text, the lookup
    of a log line by telephone number, the rewrite of its name field, the
    replacement of the line in the buffer, and the UTF-16 conversion on load and
    save. Opening, reading, creating and writing the file are not modelled. */
module IniIo {
  import opened Strings
  import opened Foreign
  import opened Utf16

  /** `IniIo`: the whole ini file as text. */
  datatype Ini = Ini(data: string)

  // ---------------------------------------------------------------------------
  // Load and save

  /** `IniIo::new` once the file's bytes are read: the bytes paired into units
      and decoded lossily. */
  function Load(bytes: seq<Byte>): (ini: Ini)
    ensures |ini.data| <= |bytes| / 2
  {
    Ini(Decode(PairBytes(bytes)))
  }

  /** The bytes `IniIo::save` writes: the text's UTF-16 units, low byte first. */
  function SaveBytes(ini: Ini): (bytes: seq<Byte>)
    ensures |bytes| % 2 == 0
    ensures 2 * |ini.data| <= |bytes| <= 4 * |ini.data|
  {
    UnitBytes(Encode(ini.data))
  }

  /** Loading what was saved gives the same text back. */
  lemma LoadSave(ini: Ini)
    ensures Load(SaveBytes(ini)) == ini
  {
    PairUnitBytes(Encode(ini.data));
    DecodeEncode(ini.data);
  }

  /** Saving what was loaded reproduces the file byte for byte exactly when the
      file has an even length and holds well-formed UTF-16. */
  lemma SaveLoad(bytes: seq<Byte>)
    requires |bytes| % 2 == 0
    ensures SaveBytes(Load(bytes)) == bytes <==> WellFormed(PairBytes(bytes))
  {
    var units := PairBytes(bytes);
    UnitPairBytes(bytes);
    RoundTripIffWellFormed(units);
    if SaveBytes(Load(bytes)) == bytes {
      PairUnitBytes(Encode(Decode(units)));
    }
  }

  // ---------------------------------------------------------------------------
  // get_match_number_line

  /** A line the pattern `(?m)^\d=KEY;.*$` matches: one digit, '=', the key, ';',
      then anything up to the line break. */
  predicate IsNumberLine(line: string, key: string)
  {
    && |line| >= |key| + 3
    && IsAsciiDigit(line[0]) && line[1] == '='
    && line[2..|key| + 2] == key && line[|key| + 2] == ';'
  }

  /** The index of the first line the pattern matches. */
  function FirstNumberLine(lines: seq<string>, key: string): (r: Option<nat>)
    ensures r.Some? ==> r.value < |lines| && IsNumberLine(lines[r.value], key)
    ensures r.Some? ==> forall j :: 0 <= j < r.value ==> !IsNumberLine(lines[j], key)
    ensures r.None? ==> forall j :: 0 <= j < |lines| ==> !IsNumberLine(lines[j], key)
  {
    if lines == [] then None
    else if IsNumberLine(lines[0], key) then Some(0)
    else match FirstNumberLine(lines[1..], key)
      case None => None
      case Some(i) => Some(i + 1)
  }

  /** Trailing whitespace never reaches into the matched prefix. */
  lemma TrimEndKeepsNumberLine(line: string, key: string)
    requires IsNumberLine(line, key)
    ensures IsNumberLine(TrimEnd(line), key)
  {
    var r := TrimEnd(line);
    assert !IsWhitespace(line[|key| + 2]);
    assert |r| > |key| + 2;
    assert r[..|key| + 3] == line[..|key| + 3];
    assert r[2..|key| + 2] == line[2..|key| + 2];
  }

  /** `IniIo::get_match_number_line`: the first line holding the number's key in
      the pattern above, without trailing whitespace (the '\r' of a CRLF line
      break included), or "" when no line matches. */
  function GetMatchNumberLine(ini: Ini, number: string, ext: Externals): (r: string)
    ensures var lines := Lines(ini.data); var key := ext.fixNumber(number);
      r == "" <==> forall j :: 0 <= j < |lines| ==> !IsNumberLine(lines[j], key)
    ensures var lines := Lines(ini.data); var key := ext.fixNumber(number);
      r != "" ==> (exists i :: 0 <= i < |lines| && r == TrimEnd(lines[i]) &&
                     IsNumberLine(lines[i], key) &&
                     (forall j :: 0 <= j < i ==> !IsNumberLine(lines[j], key)))
    ensures r != "" ==> IsNumberLine(r, ext.fixNumber(number)) && !IsWhitespace(r[|r| - 1])
  {
    var lines := Lines(ini.data);
    var key := ext.fixNumber(number);
    match FirstNumberLine(lines, key)
    case None => ""
    case Some(i) =>
      TrimEndKeepsNumberLine(lines[i], key);
      TrimEnd(lines[i])
  }

  // ---------------------------------------------------------------------------
  // make_new_number_line

  /** `IniIo::make_new_number_line`: a call-log line has six `;`-separated
      fields, the second being the name; the name is replaced by `newName` with
      its `;` deleted. A line without exactly six fields gives "". */
  function MakeNewNumberLine(oldLine: string, newName: string): (r: string)
    ensures |Split(oldLine, ";")| != 6 ==> r == ""
    ensures |Split(oldLine, ";")| == 6 ==>
      Split(r, ";") == Split(oldLine, ";")[1 := RemoveChar(newName, ';')]
  {
    var v := Split(oldLine, ";");
    if |v| != 6 then ""
    else
      var fixNewName := ReplaceAll(newName, ";", "");
      SplitCharPieces(oldLine, ';');
      NewLineFields(v, newName);
      Join([v[0], fixNewName, v[2], v[3], v[4], v[5]], ";")
  }

  lemma NewLineFields(v: seq<string>, newName: string)
    requires |v| == 6 && forall i :: 0 <= i < 6 ==> ';' !in v[i]
    ensures var fields := [v[0], ReplaceAll(newName, ";", ""), v[2], v[3], v[4], v[5]];
      fields == v[1 := RemoveChar(newName, ';')]
      && Split(Join(fields, ";"), ";") == fields
  {
    ReplaceByEmptyIsRemove(newName, ';');
    var fields := v[1 := RemoveChar(newName, ';')];
    SplitJoinChar(fields, ';');
  }

  /** A line built from six fields free of `;` gets its name field replaced. */
  lemma MakeNewNumberLineOfFields(fields: seq<string>, newName: string)
    requires |fields| == 6 && forall i :: 0 <= i < 6 ==> ';' !in fields[i]
    ensures MakeNewNumberLine(Join(fields, ";"), newName)
         == Join(fields[1 := RemoveChar(newName, ';')], ";")
  {
    SplitJoinChar(fields, ';');
    var v := Split(Join(fields, ";"), ";");
    assert v == fields;
    NewLineFields(v, newName);
  }

  /** Rewriting a line and then rewriting it back with its old name restores it. */
  lemma MakeNewNumberLineBack(oldLine: string, newName: string)
    requires |Split(oldLine, ";")| == 6
    ensures MakeNewNumberLine(MakeNewNumberLine(oldLine, newName), Split(oldLine, ";")[1])
         == oldLine
  {
    var v := Split(oldLine, ";");
    SplitCharPieces(oldLine, ';');
    var newLine := MakeNewNumberLine(oldLine, newName);
    var w := Split(newLine, ";");
    assert w == v[1 := RemoveChar(newName, ';')];
    RemoveCharAbsent(v[1], ';');
    assert w[1 := RemoveChar(v[1], ';')] == v;
    SplitJoin(oldLine, ";");
    SplitCharPieces(newLine, ';');
    SplitJoin(newLine, ";");
    MakeNewNumberLineOfFields(w, v[1]);
  }

  // ---------------------------------------------------------------------------
  // replace

  /** `IniIo::replace`: every occurrence of `oldLine` in the buffer replaced. */
  function Replace(ini: Ini, oldLine: string, newLine: string): (r: Ini)
    ensures !Contains(ini.data, oldLine) ==> r == ini
    ensures oldLine == newLine ==> r == ini
  {
    ReplaceNotContainedIni(ini, oldLine, newLine);
    ReplaceBySelf(ini.data, oldLine);
    Ini(ReplaceAll(ini.data, oldLine, newLine))
  }

  lemma ReplaceNotContainedIni(ini: Ini, oldLine: string, newLine: string)
    ensures !Contains(ini.data, oldLine) ==> ReplaceAll(ini.data, oldLine, newLine) == ini.data
  {
    if !Contains(ini.data, oldLine) {
      ReplaceNotContained(ini.data, oldLine, newLine);
    }
  }

  /** The buffer is cut at each non-overlapping occurrence of `oldLine`, scanning
      left to right; the pieces hold no further occurrence, and the result puts
      `newLine` where each occurrence was. */
  lemma ReplaceEveryOccurrence(ini: Ini, oldLine: string, newLine: string)
    requires oldLine != ""
    ensures var pieces := Split(ini.data, oldLine);
      && Join(pieces, oldLine) == ini.data
      && (forall i :: 0 <= i < |pieces| ==> !Contains(pieces[i], oldLine))
      && Replace(ini, oldLine, newLine).data == Join(pieces, newLine)
  {
    SplitJoin(ini.data, oldLine);
    SplitPiecesAvoidSep(ini.data, oldLine);
    ReplaceAllIsJoinOfSplit(ini.data, oldLine, newLine);
  }

  /** A single-line `oldLine` is replaced line by line. */
  lemma ReplaceLineByLine(ini: Ini, oldLine: string, newLine: string)
    requires oldLine != "" && '\n' !in oldLine
    ensures Replace(ini, oldLine, newLine).data
         == Join(ReplaceEach(Lines(ini.data), oldLine, newLine), "\n")
    ensures '\n' !in newLine ==>
      Lines(Replace(ini, oldLine, newLine).data) == ReplaceEach(Lines(ini.data), oldLine, newLine)
  {
    var lines := Lines(ini.data);
    SplitJoin(ini.data, "\n");
    ReplacePieces(lines, '\n', oldLine, newLine);
    if '\n' !in newLine {
      var replaced := ReplaceEach(lines, oldLine, newLine);
      SplitCharPieces(ini.data, '\n');
      forall i | 0 <= i < |replaced|
        ensures '\n' !in replaced[i]
      {
        ReplaceKeepsAbsent(lines[i], oldLine, newLine, '\n');
      }
      SplitJoinChar(replaced, '\n');
    }
  }

  // ---------------------------------------------------------------------------
  // The data of the module tests

  /** The tests' call-log line for 445566 with the given name:
      "1=445566;NAME;2;2222;0;cancel". */
  function CallLine(name: string): string
  {
    Join(["1=445566", name, "2", "2222", "0", "cancel"], ";")
  }

  /** Renaming "BBB" to "ZZZ" and back, as the write test does. */
  lemma MakeNewNumberLineExample()
    ensures MakeNewNumberLine(CallLine("BBB"), "ZZZ") == CallLine("ZZZ")
    ensures MakeNewNumberLine(CallLine("ZZZ"), "BBB") == CallLine("BBB")
  {
    RenameCallLine("BBB", "ZZZ");
    RenameCallLine("ZZZ", "BBB");
  }

  lemma RenameCallLine(name: string, newName: string)
    requires ';' !in name && ';' !in newName
    ensures MakeNewNumberLine(CallLine(name), newName) == CallLine(newName)
  {
    var f := ["1=445566", name, "2", "2222", "0", "cancel"];
    RemoveCharAbsent(newName, ';');
    MakeNewNumberLineOfFields(f, newName);
    assert f[1 := newName] == ["1=445566", newName, "2", "2222", "0", "cancel"];
  }
}
