# vcf2msip in Dafny

A model of the text core of vcf2msip, a converter from a vCard address book
(`.vcf`) to the contact list of the MicroSIP softphone (`Contacts.xml`), with
the renaming of entries in the MicroSIP call log (`MicroSIP.ini`). Every
operation works on text and sequences in memory. Reading and writing files,
listing directories and the console are not modelled.

The model is split into modules that follow the program's files:

- `Strings`: the Rust string operations the program relies on.
  - `str::split` and `str::replace` (left to right, non-overlapping), including
    the empty pattern, which `name_index` uses.
  - `trim` and `trim_end`.
  - The lines a `(?m)` regex sees.
- `Decimal`: `{}`, `{:04}` and `parse` for integers.
- `Utf16`: the byte pairing and the UTF-16 conversions of the ini file.
- `Foreign`: the functions whose code is not part of this model.
  - kanaria's `wide` and `hiragana`, and `fix_number`.
  - The platform's path operations.

  They are passed in as values, so every property holds whatever they compute.
- `VcfParser`: records, header capture, telephone lines, the contact's
  derived names, and the XML record template.
- `ArgAndHelp`: the classification of command-line arguments, and the display
  name pattern.
- `IniIo`: the call-log lookup and rewrite, and the UTF-16 load/save
  transforms.
- `XmlPerser`: reading an existing `Contacts.xml` line by line, and clearing
  entries by number.
- `FileFns`: the temporary name and the numbered backup name.
- `Conversion`: the conversion loop of `main`, as a method, and the text it
  writes.
- `ErrorFlg`: the error codes and their messages.

Each regex the program uses is hand-coded as a matcher for that one pattern,
with lemmas that the matcher accepts exactly the lines of the pattern's shape.
Each such matcher follows the leftmost-first, greedy semantics of the `regex`
crate.

## Model

| member | source | states |
|---|---|---|
| VcfParser.GetVcards | src/vcf_parser.rs:50-54 | the records hold no `END:VCARD`, and the input is the records each followed by `END:VCARD`, then a tail without one |
| VcfParser.GetVcardsOfTerminated | src/vcf_parser.rs:50-54 | records each followed by `END:VCARD`, then any tail without it, split back into exactly those records |
| VcfParser.TrailingTextDropped | src/vcf_parser.rs:51-53 | text after the last terminator is dropped even when it is not empty |
| VcfParser.EndVcardBorderFree | src/vcf_parser.rs:51 | the terminator's first char does not recur in it, so its occurrences never overlap |
| VcfParser.CaptureSpec | src/vcf_parser.rs:73-82 | `wide("")` when no line starts with the header; otherwise `wide` of the first matching line's rest with trailing whitespace removed; later matching lines are ignored |
| VcfParser.FirstRestSpec | src/vcf_parser.rs:74-78 | None exactly when no line matches; otherwise the rest of a matching line with no match before it |
| VcfParser.ItemOrgSound | src/vcf_parser.rs:67 | every `item[\d]*.ORG:` capture comes from a line `item`, digits, any char but a line break, `ORG:`, rest |
| VcfParser.ItemOrgComplete | src/vcf_parser.rs:67 | every line of that shape is captured with its rest, so a bare `ORG:` line is not |
| VcfParser.TelLineComplete | src/vcf_parser.rs:86-90 | every line `[item\d.]*TEL(;TYPE=letters)*:rest` matches, with the last TYPE value ("" without one) and the rest as number |
| VcfParser.TelLineSound | src/vcf_parser.rs:86-90 | every match comes from a line of that shape, and its type is the last TYPE value |
| VcfParser.TypeAttrsComplete | src/vcf_parser.rs:86 | the repeated `;TYPE=` group is read to its end, keeping the last value |
| VcfParser.TypeAttrsSound | src/vcf_parser.rs:86 | what the repeated group reads is a run of `;TYPE=letters` attributes followed by ':' |
| VcfParser.TelOfLine | src/vcf_parser.rs:88-96 | each line yields at most one telephone |
| VcfParser.TelKeptIffNonEmpty | src/vcf_parser.rs:89-95 | a matching line is kept iff its raw number is non-empty; the number is stored with trailing whitespace trimmed, so a whitespace-only number is stored as "" |
| VcfParser.CapTelNumbers | src/vcf_parser.rs:85-99 | at most one telephone per line |
| VcfParser.CapTelNumbersAppend | src/vcf_parser.rs:88 | telephones come out in line order: the text before a line break contributes first |
| VcfParser.ParsedIsEmptyIff | src/vcf_parser.rs:85-104 | a parsed contact is empty iff no line matches the telephone pattern with a non-empty number, whatever its other fields |
| VcfParser.FullNameFallback | src/vcf_parser.rs:107-113 | the name is FN, or the organization when FN is empty; it is empty only when both are |
| VcfParser.NameIndex | src/vcf_parser.rs:116-130 | at most one char: the first char of `hiragana` of the phonetic last name, else of FN, else of the organization |
| VcfParser.FmtXmlPlain | src/vcf_parser.rs:142-147 | with no '%' in the fields, the record has `name ++ type` as the name attribute, `number` as the number attribute, and the rest of the template unchanged |
| VcfParser.FillTemplate | src/vcf_parser.rs:143-146 | the three token replacements, in order, fill a template whose fixed text holds no '%' |
| VcfParser.FmtXmlTokenInName | src/vcf_parser.rs:144-145 | a name ending in `%type` fuses with the template's `%type%`, which the next replacement then fills: tokens are not escaped |
| VcfParser.XmlTailShape | src/vcf_parser.rs:143 | the template text after the number holds no '%' and starts with '"' |
| VcfParser.CodesAgreeWithErrorFlg | src/vcf_parser.rs:6-9 | the four codes here equal those of `error_flg` |
| ArgAndHelp.GetParams | src/arg_and_help.rs:33-88 | flags set iff their option occurs after argument 0; load and save files from the first two positionals with '/' as the separator; pattern default for two positionals, else the third; help iff a help option, fewer than two or more than three positionals, a non-`vcf` extension or a save file not named `contacts.xml`; the ini path beside an accepted save file |
| ArgAndHelp.Settle | src/arg_and_help.rs:60-85 | the checks after the loop change only the pattern, the help flag and the ini path, as listed for `GetParams` |
| ArgAndHelp.ScanMeets | src/arg_and_help.rs:36-59 | the loop's flags and positional count match the arguments it has seen |
| ArgAndHelp.UserArgs | src/arg_and_help.rs:37 | argument 0 is dropped |
| ArgAndHelp.Positionals | src/arg_and_help.rs:38-58 | the positionals are the non-option arguments in order |
| ArgAndHelp.OptionKeepsFlags | src/arg_and_help.rs:38-45 | an option argument sets its own flag and counts as no positional |
| ArgAndHelp.OptionKeepsFiles | src/arg_and_help.rs:38-45 | an option argument leaves the file names and the pattern alone |
| ArgAndHelp.PositionalKeepsFlags | src/arg_and_help.rs:46-58 | a positional argument leaves the flags alone and counts once |
| ArgAndHelp.PositionalKeepsFiles | src/arg_and_help.rs:46-58 | a positional argument fills the next slot |
| ArgAndHelp.FirstPositional | src/arg_and_help.rs:48-49 | the first positional is the load file |
| ArgAndHelp.SecondPositional | src/arg_and_help.rs:50-51 | the second positional is the save file |
| ArgAndHelp.ThirdPositional | src/arg_and_help.rs:52-53 | the third positional is the name pattern, verbatim |
| ArgAndHelp.LaterPositional | src/arg_and_help.rs:54-55 | a fourth positional sets help |
| ArgAndHelp.OptionListsDisjoint | src/arg_and_help.rs:4-7 | no argument is in two option lists |
| ArgAndHelp.PositionalsAppend | src/arg_and_help.rs:36-59 | the positionals of a concatenation are those of each side |
| ArgAndHelp.OptionNotPositional | src/arg_and_help.rs:38-45 | an option anywhere leaves the positionals unchanged |
| ArgAndHelp.PatDefaultText | src/arg_and_help.rs:13 | the default pattern is `%initial% - %name% (%tel_type%)` |
| ArgAndHelp.FmtName | src/arg_and_help.rs:125-137 | the result has no whitespace at either end |
| ArgAndHelp.FmtNameNoQuote | src/arg_and_help.rs:133-136 | the result never holds '"' |
| ArgAndHelp.FmtNameDefault | src/arg_and_help.rs:125-137 | the default pattern with a non-empty type gives `<initial> - <name> (<type>)`, trimmed |
| ArgAndHelp.FmtNameDefaultNoType | src/arg_and_help.rs:125-137 | the default pattern with an empty type gives `<initial> - <name>`: the empty "()" is removed and the space before it trimmed |
| ArgAndHelp.FmtNameExample | src/arg_and_help.rs:125-137 | initial "た", name "Taro Yamada" and type "WORK" give "た - Taro Yamada (WORK)" |
| ArgAndHelp.FmtNameTokenInName | src/arg_and_help.rs:129-130 | a token inside an earlier inserted value is replaced too |
| ArgAndHelp.FmtNameTokenInInitial | src/arg_and_help.rs:129-132 | a token inside the initial, which is inserted last, stays |
| ArgAndHelp.TidyNoType | src/arg_and_help.rs:134-135 | with an empty type the "()" is removed, leaving the space before it |
| ArgAndHelp.KeepParens | src/arg_and_help.rs:134 | "(<type>)" with a non-empty type is not removed |
| ArgAndHelp.TidyUnchanged | src/arg_and_help.rs:133-135 | text without '"', '(' or '[' passes the tidying steps unchanged |
| IniIo.Load | src/ini_io.rs:26-34 | the text has at most half as many chars as the file has bytes |
| IniIo.SaveBytes | src/ini_io.rs:72-77 | an even number of bytes, two to four per char |
| IniIo.LoadSave | src/ini_io.rs:72 | loading what was saved gives the same text |
| IniIo.SaveLoad | src/ini_io.rs:26-33 | saving what was loaded reproduces an even-length file iff it is well-formed UTF-16 |
| IniIo.FirstNumberLine | src/ini_io.rs:39-41 | the first line matching `^\d=KEY;`, or None when no line matches |
| IniIo.GetMatchNumberLine | src/ini_io.rs:38-46 | "" iff no line matches; otherwise the first matching line with trailing whitespace trimmed, still matching |
| IniIo.TrimEndKeepsNumberLine | src/ini_io.rs:43 | trimming never reaches into the matched prefix |
| IniIo.MakeNewNumberLine | src/ini_io.rs:49-57 | "" unless the line has six `;` fields; otherwise the fields of the old line with field 1 replaced by the new name without `;` |
| IniIo.MakeNewNumberLineOfFields | src/ini_io.rs:50-55 | a line of six fields free of `;` gets only its name field replaced |
| IniIo.MakeNewNumberLineBack | src/ini_io.rs:49-57 | rewriting a line and then rewriting it back with its old name restores it |
| IniIo.MakeNewNumberLineExample | src/ini_io.rs:118-125 | "1=445566;BBB;2;2222;0;cancel" renamed "ZZZ" gives "1=445566;ZZZ;2;2222;0;cancel", and renaming back restores it |
| IniIo.Replace | src/ini_io.rs:60-62 | the buffer is unchanged when the old line is absent or equals the new one |
| IniIo.ReplaceEveryOccurrence | src/ini_io.rs:61 | the buffer is cut at every non-overlapping occurrence, left to right; the pieces hold none, and the new line is put at each cut |
| IniIo.ReplaceLineByLine | src/ini_io.rs:127-128 | a one-line old line is replaced line by line |
| Utf16.PairBytes | src/ini_io.rs:26-30 | one unit per two bytes |
| Utf16.PairBytesAt | src/ini_io.rs:29 | unit k is byte 2k plus 256 times byte 2k+1 |
| Utf16.PairDropsOddByte | src/ini_io.rs:27 | a trailing odd byte adds no unit |
| Utf16.PairUnitBytes | src/ini_io.rs:29 | pairing the bytes written for units gives those units |
| Utf16.UnitPairBytes | src/ini_io.rs:74 | writing the units paired from an even number of bytes gives those bytes |
| Utf16.DecodeEncode | src/ini_io.rs:72 | decoding encoded text gives it back |
| Utf16.EncodeDecode | src/ini_io.rs:33 | re-encoding decoded well-formed units reproduces them |
| Utf16.RoundTripIffWellFormed | src/ini_io.rs:33 | decoding then encoding is the identity exactly on well-formed units |
| Utf16.IllFormedReplaced | src/ini_io.rs:33 | ill-formed units decode to text holding U+FFFD |
| Utf16.DecodeKeepsBom | src/ini_io.rs:33 | a leading byte order mark is kept as the char U+FEFF |
| XmlPerser.FindMatchSpec | src/xml_perser.rs:32 | no match iff the line has no `<contact name="…" number="…" firstname=` shape; otherwise the leftmost start with the greedy (last) ends of both groups |
| XmlPerser.CapturesSpec | src/xml_perser.rs:40-41 | captures exist iff the shape occurs, and are the two slices of a match |
| XmlPerser.LastOccurrenceIsLast | src/xml_perser.rs:32 | the greedy group ends at the last occurrence of the text after it |
| XmlPerser.FirstOccurrenceIsFirst | src/xml_perser.rs:32 | the match starts at the leftmost occurrence of its literal start |
| XmlPerser.LineEntries | src/xml_perser.rs:40-42 | a line gives nothing iff it does not match; otherwise one entry `(fix_number(number), number, name)` of the captures |
| XmlPerser.New | src/xml_perser.rs:24-46 | at most one entry per line |
| XmlPerser.NewOfLines | src/xml_perser.rs:34-44 | the entries are those of the lines, in file order |
| XmlPerser.NewAppendLines | src/xml_perser.rs:34-44 | appending lines to a file appends their entries |
| XmlPerser.NewEmptyIff | src/xml_perser.rs:24-56 | no entries iff no line matches |
| XmlPerser.ReadRecord | src/xml_perser.rs:32-41 | a line written by `fmt_xml` from fields without '%', with no '"' in the number or the text after it, reads back as `(fix_number(number), number, name ++ type)` |
| XmlPerser.Empty | src/xml_perser.rs:18-21 | `empty()` is empty |
| XmlPerser.ClearExist | src/xml_perser.rs:59-73 | the length is kept; each entry whose key is `fix_number(number)` becomes blank, every other is unchanged |
| XmlPerser.ClearedIdempotent | src/xml_perser.rs:59-73 | clearing twice with the same number equals clearing once |
| XmlPerser.ClearedCommute | src/xml_perser.rs:59-73 | clearing by two numbers gives the same in either order |
| XmlPerser.ClearedRemovesKey | src/xml_perser.rs:63-71 | after clearing, no entry has the key unless the key is "" |
| FileFns.TmpName | src/file_fns.rs:29-31 | the name followed by four more chars, `.tmp` |
| FileFns.TmpNameDistinct | src/file_fns.rs:29-31 | the temporary name differs from the name, and different names get different temporary names |
| FileFns.FirstBupSpec | src/file_fns.rs:83-86 | the unanchored pattern's leftmost match is found, and none is found only when there is none |
| FileFns.LastBlock | src/file_fns.rs:83 | the greedy `([0-9]{4})+` ends at the last whole block of four digits |
| FileFns.BupNumber | src/file_fns.rs:86-89 | a file's number is below 10000, so parsing the four-digit group cannot fail |
| FileFns.BupNumberSpec | src/file_fns.rs:86-87 | a file has a number iff the pattern matches it somewhere |
| FileFns.LastNumberSpec | src/file_fns.rs:85-94 | the last number is at least every listed number, and is 0 or one of them |
| FileFns.LastNumberPush | src/file_fns.rs:90-92 | one more file raises the number to its own when that is larger |
| FileFns.NewBupName | src/file_fns.rs:75-97 | the new name always starts with the file name and `.bup` |
| FileFns.NewBupNameSpec | src/file_fns.rs:75-97 | without a listing the name reads back as backup 1; with one it is `.bup` and n padded to four digits, for an n from 1 to 10000 above every listed backup's number, 1 when nothing matches, and reads back as n below 10000 |
| FileFns.NewNumberAboveAll | src/file_fns.rs:76-95 | the new number is greater than every listed number, between 1 and 10000, and 1 when nothing matches |
| FileFns.BackupNumberRoundTrip | src/file_fns.rs:83-96 | the name of backup k reads back as k |
| FileFns.NewBupNameFresh | src/file_fns.rs:75-97 | a new backup name is never the name of a listed backup below 10000 |
| FileFns.NextAfterGap | src/file_fns.rs:85-96 | with backups 0001 and 0003 the next is 0004: gaps are not filled |
| FileFns.PaddedExamples | src/file_fns.rs:96 | 1, 3 and 4 are written 0001, 0003 and 0004 |
| FileFns.NumberingStopsAt10000 | src/file_fns.rs:83-96 | after `bup9999` comes `bup10000`, which reads as 1000, so the next backup is `bup10000` again |
| Decimal.ZeroPad4 | src/file_fns.rs:96 | four digits or more, with the value n; exactly four below 10000 |
| Decimal.NatTextRoundTrip | src/file_fns.rs:89-96 | `parse` reads back what `{}` wrote |
| Decimal.IntToText | src/error_flg.rs:27 | the decimal text of an `i32`, with a minus sign for a negative value |
| Conversion.DisplayName | src/main.rs:38-40 | the name of a contact's lines holds no '"' |
| Conversion.DisplayNameParts | src/main.rs:38-40 | the name is `name_index`, " - " and `full_name`, each with every '"' removed |
| Conversion.TypeSuffix | src/main.rs:45-49 | empty iff the type is empty |
| Conversion.TypeSuffixParts | src/main.rs:48 | a non-empty type T is shown as " (T)" |
| Conversion.ContactLines | src/main.rs:43-59 | one line per telephone; none iff the contact is empty |
| Conversion.Convert | src/main.rs:31-62 | the lines are those of the contacts, record by record and telephone by telephone; `count_number` is the number of lines and of telephones; `count_contact` is the number of contacts with a telephone |
| Conversion.WriteContact | src/main.rs:43-59 | the inner loop appends one line per telephone and counts each |
| Conversion.CountsRelate | src/main.rs:58-60 | `count_contact` is at most `count_number`, and one is 0 iff the other is |
| Conversion.ExpectedAt | src/main.rs:31-58 | the line of telephone k of contact i follows the lines of all earlier contacts and telephones |
| Conversion.ExpectedAppend | src/main.rs:34-61 | records convert independently: the lines of two runs are those of each run in turn |
| Conversion.EmptyContactSkipped | src/main.rs:37 | a contact without telephones adds no line and is not counted |
| Conversion.FileFrame | src/main.rs:27-64 | the file is the XML declaration and `<contacts>`, the contact lines, then `</contacts>`, each line ended by "\r\n" |
| Conversion.ReadBack | src/main.rs:27-64 | reading back the written file gives one entry per telephone, in order, each with the number and the name and type shown |
| ErrorFlg.Message | src/error_flg.rs:16-26 | a non-empty message iff the code is one of the eight |
| ErrorFlg.ErrorLine | src/error_flg.rs:27 | a known code prints its message; any other prints the fallback text and the code |
| ErrorFlg.CodesDistinct | src/error_flg.rs:3-12 | the eight codes are pairwise distinct |
| ErrorFlg.MessagesDistinct | src/error_flg.rs:16-24 | distinct codes print distinct messages |

## Left out

- File and OS effects are not modelled, and neither are their error codes:
  - `Vcf::new`;
  - opening and reading in `IniIo::new` and `SipContacts::new`;
  - the write loop of `IniIo::save`;
  - `create_file`, `delete_file`, `file_backup`, `get_filelist_same_dir` and
    `is_exists_io_files`;
  - opening and writing the output in `main`.

  Each operation starts from the text, bytes or listing already in memory.
  `SipContacts::new` stops at a line that is not UTF-8. The model takes the
  text that was read, so it does not represent that stop.
- kanaria's katakana widening and hiragana conversion, and `fix_number`, are
  not part of this model. They are parameters (`Foreign.Externals`), and no
  property assumes anything about them.
- The byte order of the ini file is fixed to little-endian, low byte first, in
  both directions: `u16::from_ne_bytes` when loading (`Utf16.PairBytes`) and
  `write_u16` when saving (`IniIo.SaveBytes`). The ini file MicroSIP writes is
  UTF-16LE.
- `std::env::args` is a parameter. So are `MAIN_SEPARATOR`, `Path::extension`,
  `file_name`, `parent` and `to_lowercase` (`Foreign.PathOps`).
- `print_help`, the `println!` calls and `src/progress_bar.rs` are console
  output, and are not modelled.
- `IsNumberLine`, `DigitRun` and the telephone pattern read `\d` as the ASCII
  digits. The `regex` crate's `\d` also accepts other Unicode decimal digits.
- `IsNumberLine` matches the key text literally. The source puts
  `fix_number(number)` into the pattern without escaping it, so a key holding
  regex metacharacters would be read as a pattern there.
- `Strings.Split` and `Strings.ReplaceAll` follow Rust for the empty pattern as
  well. They insert at every char boundary, and `name_index` relies on this.
  So neither requires a non-empty pattern.
- `XmlPerser.ReadRecord` and `Conversion.ReadBack` need fields without '%', a
  number without '"', and no line break in the name, the type suffix or the
  number (`Conversion.Readable`). Otherwise `fmt_xml`'s unescaped placeholders
  or attribute quotes change the record, as `VcfParser.FmtXmlTokenInName`
  shows, or a line break splits it across lines.
