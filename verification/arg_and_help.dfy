/** Command-line classification (`Args::get_params`) and the display-name
    template (`Args::fmt_name`). The argument vector is an explicit sequence and
    the platform's path conventions are a `PathOps` value. */
module ArgAndHelp {
  import opened Strings
  import opened Foreign

  const ArgHelp: seq<string> := ["-h", "-v", "--help", "--version"]
  const ArgMerge: seq<string> := ["-m", "--merge"]
  const ArgOverwrite: seq<string> := ["-n", "--no-bup"]
  const ArgRenewLogs: seq<string> := ["-r", "--renew-logs"]

  const PatName := Token("name")
  const PatInitial := Token("initial")
  const PatTelType := Token("tel_type")
  const PatCategories := Token("categories")

  /** The default pattern's layout, "<initial> - <name> (<type>)". */
  function DefaultLayout(initial: string, name: string, telType: string): string
  {
    initial + (" - " + (name + (" " + ("(" + (telType + ")")))))
  }

  /** "%initial% - %name% (%tel_type%)". */
  const PatDefault := DefaultLayout(PatInitial, PatName, PatTelType)

  lemma PatDefaultText()
    ensures PatDefault == "%initial% - %name% (%tel_type%)"
  {
  }

  datatype Args = Args(
    loadFileName: string,
    saveFileName: string,
    microsipIniFile: string,
    namePattern: string,
    isHelp: bool,
    isMerge: bool,
    isNoBup: bool,
    isRenewLogs: bool)

  const NoArgs := Args("", "", "", "", false, false, false, false)

  // ---------------------------------------------------------------------------
  // Classifying the arguments

  predicate IsOption(arg: string)
  {
    arg in ArgHelp || arg in ArgMerge || arg in ArgOverwrite || arg in ArgRenewLogs
  }

  /** Some argument is one of `opts`. */
  predicate AnyIn(args: seq<string>, opts: seq<string>)
  {
    exists i :: 0 <= i < |args| && args[i] in opts
  }

  /** The arguments after the program path, which is argument 0. */
  function UserArgs(argv: seq<string>): (r: seq<string>)
    ensures argv == [] ==> r == []
    ensures argv != [] ==> argv == [argv[0]] + r
  {
    if argv == [] then [] else argv[1..]
  }

  /** The arguments that are not options, in order: the file names and the pattern. */
  function Positionals(args: seq<string>): (r: seq<string>)
    ensures |r| <= |args|
    ensures forall k :: 0 <= k < |r| ==> !IsOption(r[k])
    decreases |args|
  {
    if args == [] then []
    else
      var last := args[|args| - 1];
      Positionals(args[..|args| - 1]) + (if IsOption(last) then [] else [last])
  }

  /** A path with every '/' turned into the platform separator. */
  function ToSeparators(path: string, sep: char): string
  {
    ReplaceAll(path, "/", [sep])
  }

  /** An option sets the flag of the first option list holding it. */
  function SetFlag(a: Args, arg: string): Args
  {
    if arg in ArgHelp then a.(isHelp := true)
    else if arg in ArgMerge then a.(isMerge := true)
    else if arg in ArgOverwrite then a.(isNoBup := true)
    else if arg in ArgRenewLogs then a.(isRenewLogs := true)
    else a
  }

  /** Any other argument is the next positional: the load file, the save file,
      then the name pattern; a fourth one asks for help. */
  function AddPositional(a: Args, fileCount: nat, arg: string, sep: char): Args
  {
    if fileCount == 0 then a.(loadFileName := ToSeparators(arg, sep))
    else if fileCount == 1 then a.(saveFileName := ToSeparators(arg, sep))
    else if fileCount == 2 then a.(namePattern := arg)
    else a.(isHelp := true)
  }

  /** The flags and the count after the loop has seen `args`. */
  predicate ScannedFlags(args: seq<string>, a: Args, fileCount: nat)
  {
    && fileCount == |Positionals(args)|
    && a.isHelp == (AnyIn(args, ArgHelp) || fileCount > 3)
    && a.isMerge == AnyIn(args, ArgMerge)
    && a.isNoBup == AnyIn(args, ArgOverwrite)
    && a.isRenewLogs == AnyIn(args, ArgRenewLogs)
  }

  /** The file names and the pattern after the loop has seen `args`. */
  predicate ScannedFiles(args: seq<string>, a: Args, sep: char)
  {
    FilesFrom(Positionals(args), a, sep)
  }

  /** The load file has an extension other than "vcf" in any letter case. */
  predicate NotVcf(load: string, os: PathOps)
  {
    os.extension(load).Some? && os.toLower(os.extension(load).value) != "vcf"
  }

  /** The save file has a name other than "contacts.xml" in any letter case. */
  predicate NotContactsXml(save: string, os: PathOps)
  {
    os.fileName(save).Some? && os.toLower(os.fileName(save).value) != "contacts.xml"
  }

  /** The loop of `get_params` over `args`: the options seen and the positionals
      counted so far. */
  function Scan(args: seq<string>, sep: char): (Args, nat)
    decreases |args|
  {
    if args == [] then (NoArgs, 0)
    else
      var prev := Scan(args[..|args| - 1], sep);
      var arg := args[|args| - 1];
      if IsOption(arg) then (SetFlag(prev.0, arg), prev.1)
      else (AddPositional(prev.0, prev.1, arg, sep), prev.1 + 1)
  }

  /** What the loop has gathered: each flag is set iff its option occurs, the count
      is the number of positionals, and the first three positionals are in place. */
  lemma {:induction false} ScanMeets(args: seq<string>, sep: char)
    ensures ScannedFlags(args, Scan(args, sep).0, Scan(args, sep).1)
    ensures ScannedFiles(args, Scan(args, sep).0, sep)
    decreases |args|
  {
    if args != [] {
      var init := args[..|args| - 1];
      var arg := args[|args| - 1];
      var prev := Scan(init, sep);
      ScanMeets(init, sep);
      assert args == init + [arg];
      if IsOption(arg) {
        OptionKeepsFlags(init, arg, prev.0, prev.1);
        OptionKeepsFiles(init, arg, prev.0, sep);
      } else {
        PositionalKeepsFlags(init, arg, prev.0, prev.1, sep);
        PositionalKeepsFiles(init, arg, prev.0, prev.1, sep);
      }
    }
  }

  /** `get_params`. Argument 0 is skipped; each later argument sets the flag of the
      first option list holding it, or else is the next positional: the load file,
      the save file, then the name pattern. */
  function GetParams(argv: seq<string>, os: PathOps): (a: Args)
    ensures a.isMerge == AnyIn(UserArgs(argv), ArgMerge)
    ensures a.isNoBup == AnyIn(UserArgs(argv), ArgOverwrite)
    ensures a.isRenewLogs == AnyIn(UserArgs(argv), ArgRenewLogs)
    ensures var p := Positionals(UserArgs(argv));
      a.loadFileName == (if |p| >= 1 then ToSeparators(p[0], os.separator) else "")
    ensures var p := Positionals(UserArgs(argv));
      a.saveFileName == (if |p| >= 2 then ToSeparators(p[1], os.separator) else "")
    ensures var p := Positionals(UserArgs(argv));
      a.namePattern == (if |p| == 2 then PatDefault else if |p| >= 3 then p[2] else "")
    ensures var p := Positionals(UserArgs(argv));
      a.isHelp <==> AnyIn(UserArgs(argv), ArgHelp) || |p| < 2 || |p| > 3
                    || NotVcf(a.loadFileName, os) || NotContactsXml(a.saveFileName, os)
    ensures a.microsipIniFile ==
      (if os.fileName(a.saveFileName).Some? && !NotContactsXml(a.saveFileName, os)
          && os.parent(a.saveFileName).Some?
       then os.parent(a.saveFileName).value + [os.separator] + "MicroSIP.ini"
       else "")
  {
    var scanned := Scan(UserArgs(argv), os.separator);
    ScanMeets(UserArgs(argv), os.separator);
    Settle(scanned.0, scanned.1, os)
  }

  /** The checks after the loop of `get_params`: the default pattern for exactly
      two positionals, help for a count other than two or three or for unexpected
      file names, and the MicroSIP.ini path beside an accepted save file. */
  function Settle(a: Args, fileCount: nat, os: PathOps): (r: Args)
    ensures r.loadFileName == a.loadFileName && r.saveFileName == a.saveFileName
    ensures r.isMerge == a.isMerge && r.isNoBup == a.isNoBup && r.isRenewLogs == a.isRenewLogs
    ensures r.namePattern == (if fileCount == 2 then PatDefault else a.namePattern)
    ensures r.isHelp <==> a.isHelp || fileCount < 2 || fileCount > 3
                          || NotVcf(a.loadFileName, os) || NotContactsXml(a.saveFileName, os)
    ensures r.microsipIniFile ==
      (if os.fileName(a.saveFileName).Some? && !NotContactsXml(a.saveFileName, os)
          && os.parent(a.saveFileName).Some?
       then os.parent(a.saveFileName).value + [os.separator] + "MicroSIP.ini"
       else a.microsipIniFile)
  {
    var a1 := if fileCount == 2 then a.(namePattern := PatDefault) else a;
    var a2 := if fileCount < 2 || fileCount > 3 then a1.(isHelp := true) else a1;
    var a3 :=
      match os.extension(a2.loadFileName)
      case Some(ext) => if os.toLower(ext) != "vcf" then a2.(isHelp := true) else a2
      case None => a2;
    match os.fileName(a3.saveFileName)
    case Some(name) =>
      if os.toLower(name) != "contacts.xml" then a3.(isHelp := true)
      else (
        match os.parent(a3.saveFileName)
        case Some(dir) => a3.(microsipIniFile := dir + [os.separator] + "MicroSIP.ini")
        case None => a3)
    case None => a3
  }

  lemma OptionKeepsFlags(args: seq<string>, arg: string, a: Args, fileCount: nat)
    requires IsOption(arg) && ScannedFlags(args, a, fileCount)
    ensures ScannedFlags(args + [arg], SetFlag(a, arg), fileCount)
  {
    OptionListsDisjoint(arg);
    PositionalsSnoc(args, arg);
    AnyInSnoc(args, arg, ArgHelp);
    AnyInSnoc(args, arg, ArgMerge);
    AnyInSnoc(args, arg, ArgOverwrite);
    AnyInSnoc(args, arg, ArgRenewLogs);
  }

  lemma OptionKeepsFiles(args: seq<string>, arg: string, a: Args, sep: char)
    requires IsOption(arg) && ScannedFiles(args, a, sep)
    ensures ScannedFiles(args + [arg], SetFlag(a, arg), sep)
  {
    PositionalsSnoc(args, arg);
  }

  lemma PositionalKeepsFlags(args: seq<string>, arg: string, a: Args, fileCount: nat, sep: char)
    requires !IsOption(arg) && ScannedFlags(args, a, fileCount)
    ensures ScannedFlags(args + [arg], AddPositional(a, fileCount, arg, sep), fileCount + 1)
  {
    PositionalsSnoc(args, arg);
    AnyInSnoc(args, arg, ArgHelp);
    AnyInSnoc(args, arg, ArgMerge);
    AnyInSnoc(args, arg, ArgOverwrite);
    AnyInSnoc(args, arg, ArgRenewLogs);
  }

  lemma PositionalKeepsFiles(args: seq<string>, arg: string, a: Args, fileCount: nat, sep: char)
    requires !IsOption(arg) && fileCount == |Positionals(args)| && ScannedFiles(args, a, sep)
    ensures ScannedFiles(args + [arg], AddPositional(a, fileCount, arg, sep), sep)
  {
    var p := Positionals(args);
    var q := Positionals(args + [arg]);
    PositionalsSnoc(args, arg);
    assert q == p + [arg];
    if fileCount == 0 {
      FirstPositional(p, q, arg, a, sep);
    } else if fileCount == 1 {
      SecondPositional(p, q, arg, a, sep);
    } else if fileCount == 2 {
      ThirdPositional(p, q, arg, a, sep);
    } else {
      LaterPositional(p, q, arg, a, sep);
    }
  }

  /** The file fields as they stand after the positionals `p`. */
  predicate FilesFrom(p: seq<string>, a: Args, sep: char)
  {
    && a.loadFileName == (if |p| >= 1 then ToSeparators(p[0], sep) else "")
    && a.saveFileName == (if |p| >= 2 then ToSeparators(p[1], sep) else "")
    && a.namePattern == (if |p| >= 3 then p[2] else "")
    && a.microsipIniFile == ""
  }

  lemma FirstPositional(p: seq<string>, q: seq<string>, arg: string, a: Args, sep: char)
    requires |p| == 0 && q == p + [arg] && FilesFrom(p, a, sep)
    ensures FilesFrom(q, a.(loadFileName := ToSeparators(arg, sep)), sep)
  {
    assert q[0] == arg;
  }

  lemma SecondPositional(p: seq<string>, q: seq<string>, arg: string, a: Args, sep: char)
    requires |p| == 1 && q == p + [arg] && FilesFrom(p, a, sep)
    ensures FilesFrom(q, a.(saveFileName := ToSeparators(arg, sep)), sep)
  {
    assert q[0] == p[0] && q[1] == arg;
  }

  lemma ThirdPositional(p: seq<string>, q: seq<string>, arg: string, a: Args, sep: char)
    requires |p| == 2 && q == p + [arg] && FilesFrom(p, a, sep)
    ensures FilesFrom(q, a.(namePattern := arg), sep)
  {
    assert q[0] == p[0] && q[1] == p[1] && q[2] == arg;
  }

  lemma LaterPositional(p: seq<string>, q: seq<string>, arg: string, a: Args, sep: char)
    requires |p| >= 3 && q == p + [arg] && FilesFrom(p, a, sep)
    ensures FilesFrom(q, a.(isHelp := true), sep)
  {
    assert q[0] == p[0] && q[1] == p[1] && q[2] == p[2];
  }

  /** No argument is in two option lists, so the order of the tests does not matter. */
  lemma OptionListsDisjoint(arg: string)
    ensures arg in ArgHelp ==> arg !in ArgMerge && arg !in ArgOverwrite && arg !in ArgRenewLogs
    ensures arg in ArgMerge ==> arg !in ArgOverwrite && arg !in ArgRenewLogs
    ensures arg in ArgOverwrite ==> arg !in ArgRenewLogs
  {
  }

  lemma PositionalsSnoc(args: seq<string>, x: string)
    ensures Positionals(args + [x]) == Positionals(args) + (if IsOption(x) then [] else [x])
  {
    assert (args + [x])[..|args|] == args;
  }

  lemma AnyInSnoc(args: seq<string>, x: string, opts: seq<string>)
    ensures AnyIn(args + [x], opts) <==> AnyIn(args, opts) || x in opts
  {
    var l := args + [x];
    if AnyIn(args, opts) {
      var i :| 0 <= i < |args| && args[i] in opts;
      assert l[i] == args[i];
    }
    if x in opts {
      assert l[|args|] == x;
    }
    if AnyIn(l, opts) {
      var i :| 0 <= i < |l| && l[i] in opts;
      if i < |args| {
        assert args[i] == l[i];
      }
    }
  }

  /** Positionals of a concatenation are those of each side. */
  lemma {:induction false} PositionalsAppend(a: seq<string>, b: seq<string>)
    ensures Positionals(a + b) == Positionals(a) + Positionals(b)
    decreases |b|
  {
    if b == [] {
      assert a + b == a;
    } else {
      var init := b[..|b| - 1];
      var x := b[|b| - 1];
      assert b == init + [x];
      assert a + b == (a + init) + [x];
      PositionalsAppend(a, init);
      PositionalsSnoc(a + init, x);
      PositionalsSnoc(init, x);
    }
  }

  /** Without options every argument is positional. */
  lemma {:induction false} PositionalsOfPlain(args: seq<string>)
    requires forall k :: 0 <= k < |args| ==> !IsOption(args[k])
    ensures Positionals(args) == args
    decreases |args|
  {
    if args != [] {
      var init := args[..|args| - 1];
      PositionalsOfPlain(init);
      assert args == init + [args[|args| - 1]];
      PositionalsSnoc(init, args[|args| - 1]);
    }
  }

  /** An option anywhere among the arguments leaves the positionals alone. */
  lemma OptionNotPositional(a: seq<string>, opt: string, b: seq<string>)
    requires IsOption(opt)
    ensures Positionals(a + [opt] + b) == Positionals(a + b)
  {
    PositionalsAppend(a + [opt], b);
    PositionalsSnoc(a, opt);
    PositionalsAppend(a, b);
  }

  // ---------------------------------------------------------------------------
  // The display-name template

  /** `fmt_name`: the tokens replaced in the order name, tel_type, categories,
      initial; then every '"' turned into two apostrophes, one pass each removing
      "()" and "[]", and whitespace trimmed from both ends. */
  function FmtName(pattern: string, name: string, initial: string, telType: string, categories: string): (r: string)
    ensures r == [] || (!IsWhitespace(r[0]) && !IsWhitespace(r[|r| - 1]))
  {
    Trim(Tidy(Substitute(pattern, name, initial, telType, categories)))
  }

  /** The four token replacements, in the order `fmt_name` applies them. */
  function Substitute(pattern: string, name: string, initial: string, telType: string, categories: string): string
  {
    ReplaceAll(ReplaceAll(ReplaceAll(ReplaceAll(pattern, PatName, name), PatTelType, telType),
      PatCategories, categories), PatInitial, initial)
  }

  /** Quote escaping, then the removal of empty brackets. */
  function Tidy(s: string): string
  {
    ReplaceAll(ReplaceAll(ReplaceAll(s, "\"", "''"), "()", ""), "[]", "")
  }

  /** The formatted name never holds a '"': each one becomes two apostrophes and
      the later steps cannot bring one back. */
  lemma FmtNameNoQuote(pattern: string, name: string, initial: string, telType: string, categories: string)
    ensures '"' !in FmtName(pattern, name, initial, telType, categories)
  {
    var s := Substitute(pattern, name, initial, telType, categories);
    var e := ReplaceAll(s, "\"", "''");
    ReplaceCharRemoves(s, '"', "''");
    ReplaceKeepsAbsent(e, "()", "", '"');
    ReplaceKeepsAbsent(ReplaceAll(e, "()", ""), "[]", "", '"');
    TrimKeepsChars(Tidy(s));
  }

  /** Text free of the chars the template steps act on. */
  predicate Plain(s: string)
  {
    '%' !in s && '"' !in s && '(' !in s && ')' !in s && '[' !in s && ']' !in s
  }

  /** The default pattern with a non-empty plain type: "<initial> - <name> (<type>)",
      trimmed. */
  lemma FmtNameDefault(name: string, initial: string, telType: string, categories: string)
    requires Plain(name) && Plain(initial) && Plain(telType) && telType != []
    ensures FmtName(PatDefault, name, initial, telType, categories) == Trim(DefaultLayout(initial, name, telType))
  {
    SubstituteDefault(name, initial, telType, categories);
    TidyDefault(initial, name, telType);
  }

  /** The default pattern with an empty type: the empty "()" is removed and the
      space before it trimmed, leaving "<initial> - <name>". */
  lemma FmtNameDefaultNoType(name: string, initial: string, categories: string)
    requires Plain(name) && Plain(initial)
    requires initial != [] && !IsWhitespace(initial[0])
    requires name != [] && !IsWhitespace(name[|name| - 1])
    ensures FmtName(PatDefault, name, initial, "", categories) == initial + " - " + name
  {
    var a := initial + (" - " + name);
    SubstituteDefault(name, initial, "", categories);
    TidyNoType(initial, name);
    assert a[0] == initial[0];
    assert a[|a| - 1] == name[|name| - 1];
    TrimTrailingSpace(a);
  }

  /** The example of the usage text: "た - Taro Yamada (WORK)". */
  lemma FmtNameExample(name: string, initial: string, telType: string, categories: string)
    requires name == "Taro Yamada" && initial == "た" && telType == "WORK"
    ensures FmtName(PatDefault, name, initial, telType, categories) == "た - Taro Yamada (WORK)"
  {
    ExampleFilled(name, initial, telType, categories);
    ExampleLayout();
    TrimOfTrimmed("た - Taro Yamada (WORK)");
  }

  lemma ExampleFilled(name: string, initial: string, telType: string, categories: string)
    requires name == "Taro Yamada" && initial == "た" && telType == "WORK"
    ensures FmtName(PatDefault, name, initial, telType, categories) == Trim(DefaultLayout(initial, name, telType))
  {
    FmtNameDefault(name, initial, telType, categories);
  }

  lemma ExampleLayout()
    ensures DefaultLayout("た", "Taro Yamada", "WORK") == "た - Taro Yamada (WORK)"
  {
  }

  /** A token inside an earlier inserted value is replaced too: a name of
      "%tel_type%" becomes the type. */
  lemma FmtNameTokenInName(initial: string, telType: string, categories: string)
    requires Plain(telType)
    requires telType == [] || (!IsWhitespace(telType[0]) && !IsWhitespace(telType[|telType| - 1]))
    ensures FmtName(PatName, PatTelType, initial, telType, categories) == telType
  {
    SubstituteTokenInName(initial, telType, categories);
    TidyUnchanged(telType);
    TrimOfTrimmed(telType);
  }

  /** A token inside a later inserted value stays: the initial is filled in last,
      so an initial of "%name%" is kept as it is. */
  lemma FmtNameTokenInInitial(name: string, telType: string, categories: string)
    ensures FmtName(PatInitial, name, PatName, telType, categories) == PatName
  {
    SubstituteTokenInInitial(name, telType, categories);
    TokenSettled("name");
  }

  /** A token without '"', '(' or '[' comes through the tidying and trimming whole. */
  lemma TokenSettled(w: string)
    requires '"' !in w && '(' !in w && '[' !in w
    ensures Trim(Tidy(Token(w))) == Token(w)
  {
    TidyUnchanged(Token(w));
    TrimOfTrimmed(Token(w));
  }

  // Steps of the template proofs

  lemma SubstituteDefault(name: string, initial: string, telType: string, categories: string)
    requires '%' !in name && '%' !in telType
    ensures Substitute(PatDefault, name, initial, telType, categories) == DefaultLayout(initial, name, telType)
  {
    FillDefaultName(name);
    FillDefaultType(name, telType);
    FillDefaultCategories(name, telType, categories);
    FillDefaultInitial(name, telType, initial);
  }

  lemma FillDefaultName(name: string)
    ensures ReplaceAll(PatDefault, PatName, name) == DefaultLayout(PatInitial, name, PatTelType)
  {
    var x := " - " + (PatName + DefaultTail(PatTelType));
    assert x[0] == ' ';
    KeepToken("initial", "name", x, name);
    NameAfterDash(name);
  }

  /** What follows the name in the default layout: " (<type>)". */
  function DefaultTail(telType: string): string
  {
    " " + ("(" + (telType + ")"))
  }

  lemma NameAfterDash(name: string)
    ensures ReplaceAll(" - " + (PatName + DefaultTail(PatTelType)), PatName, name)
         == " - " + (name + DefaultTail(PatTelType))
  {
    var tail := DefaultTail(PatTelType);
    ReplaceSkip(" - ", PatName + tail, PatName, name);
    ReplaceHit(tail, PatName, name);
    NameSkipsTail(name);
  }

  lemma NameSkipsTail(name: string)
    ensures ReplaceAll(DefaultTail(PatTelType), PatName, name) == DefaultTail(PatTelType)
  {
    ReplaceSkip(" ", "(" + (PatTelType + ")"), PatName, name);
    ReplaceSkip("(", PatTelType + ")", PatName, name);
    KeepToken("tel_type", "name", ")", name);
    ReplaceAbsent(")", PatName, name);
  }

  lemma FillDefaultType(name: string, telType: string)
    requires '%' !in name
    ensures ReplaceAll(DefaultLayout(PatInitial, name, PatTelType), PatTelType, telType)
         == DefaultLayout(PatInitial, name, telType)
  {
    var t := "(" + (PatTelType + ")");
    KeepToken("initial", "tel_type", " - " + (name + (" " + t)), telType);
    ReplaceSkip(" - ", name + (" " + t), PatTelType, telType);
    ReplaceSkip(name, " " + t, PatTelType, telType);
    ReplaceSkip(" ", t, PatTelType, telType);
    ReplaceSkip("(", PatTelType + ")", PatTelType, telType);
    ReplaceHit(")", PatTelType, telType);
    ReplaceAbsent(")", PatTelType, telType);
  }

  lemma FillDefaultCategories(name: string, telType: string, categories: string)
    requires '%' !in name && '%' !in telType
    ensures ReplaceAll(DefaultLayout(PatInitial, name, telType), PatCategories, categories)
         == DefaultLayout(PatInitial, name, telType)
  {
    var x := " - " + (name + (" " + ("(" + (telType + ")"))));
    assert x[0] == ' ';
    assert '%' !in x;
    KeepToken("initial", "categories", x, categories);
    ReplaceAbsent(x, PatCategories, categories);
  }

  lemma FillDefaultInitial(name: string, telType: string, initial: string)
    requires '%' !in name && '%' !in telType
    ensures ReplaceAll(DefaultLayout(PatInitial, name, telType), PatInitial, initial)
         == DefaultLayout(initial, name, telType)
  {
    var x := " - " + (name + (" " + ("(" + (telType + ")"))));
    ReplaceHit(x, PatInitial, initial);
    ReplaceAbsent(x, PatInitial, initial);
  }

  /** The filled default layout with a non-empty plain type has nothing to tidy. */
  lemma TidyDefault(initial: string, name: string, telType: string)
    requires Plain(name) && Plain(initial) && Plain(telType) && telType != []
    ensures Tidy(DefaultLayout(initial, name, telType)) == DefaultLayout(initial, name, telType)
  {
    var s := DefaultLayout(initial, name, telType);
    var a := initial + (" - " + (name + " "));
    assert '"' !in s && '[' !in s && '(' !in a;
    ReplaceAbsent(s, "\"", "''");
    DefaultRegroup(initial, name, "(" + (telType + ")"));
    KeepParens(a, telType);
    assert ReplaceAll(s, "()", "") == s;
    ReplaceAbsent(s, "[]", "");
  }

  /** With an empty type, tidying removes the "()" and leaves the space before it. */
  lemma TidyNoType(initial: string, name: string)
    requires Plain(name) && Plain(initial)
    ensures Tidy(DefaultLayout(initial, name, "")) == initial + (" - " + name) + " "
  {
    var s := DefaultLayout(initial, name, "");
    var a := initial + (" - " + name);
    ReplaceAbsent(s, "\"", "''");
    assert "(" + ("" + ")") == "()";
    DefaultRegroup(initial, name, "()");
    AppendAssoc(" - ", name, " ");
    AppendAssoc(initial, " - " + name, " ");
    ReplaceSkip(a + " ", "()", "()", "");
    ReplaceHit([], "()", "");
    assert "()" + [] == "()";
    assert (a + " ") + [] == a + " ";
    ReplaceAbsent(a + " ", "[]", "");
  }

  lemma DefaultRegroup(initial: string, name: string, p: string)
    ensures initial + (" - " + (name + (" " + p))) == (initial + (" - " + (name + " "))) + p
  {
    AppendAssoc(name, " ", p);
    AppendAssoc(" - ", name + " ", p);
    AppendAssoc(initial, " - " + (name + " "), p);
  }

  /** "(<type>)" with a non-empty plain type is not an empty pair and survives. */
  lemma KeepParens(a: string, telType: string)
    requires '(' !in a && Plain(telType) && telType != []
    ensures ReplaceAll(a + ("(" + (telType + ")")), "()", "") == a + ("(" + (telType + ")"))
  {
    var p := "(" + (telType + ")");
    ReplaceSkip(a, p, "()", "");
    assert p[1] == telType[0];
    ReplaceMiss(p, 1, "()", "");
    assert p[1..] == telType + ")";
    ReplaceAbsent(telType + ")", "()", "");
  }

  lemma TrimTrailingSpace(a: string)
    requires a != [] && !IsWhitespace(a[0]) && !IsWhitespace(a[|a| - 1])
    ensures Trim(a + " ") == a
  {
    assert (a + " ")[0] == a[0];
    TrimEndDropsWhitespace(a, ' ');
  }

  /** Text without '"', '(' or '[' is left alone by the tidying steps. */
  lemma TidyUnchanged(s: string)
    requires '"' !in s && '(' !in s && '[' !in s
    ensures Tidy(s) == s
  {
    ReplaceAbsent(s, "\"", "''");
    ReplaceAbsent(s, "()", "");
    ReplaceAbsent(s, "[]", "");
  }

  lemma SubstituteTokenInName(initial: string, telType: string, categories: string)
    requires '%' !in telType
    ensures Substitute(PatName, PatTelType, initial, telType, categories) == telType
  {
    ReplaceHit([], PatName, PatTelType);
    assert PatName + [] == PatName;
    assert PatTelType + [] == PatTelType;
    ReplaceHit([], PatTelType, telType);
    assert telType + [] == telType;
    ReplaceAbsent(telType, PatCategories, categories);
    ReplaceAbsent(telType, PatInitial, initial);
  }

  lemma SubstituteTokenInInitial(name: string, telType: string, categories: string)
    ensures Substitute(PatInitial, name, PatName, telType, categories) == PatName
  {
    KeepLoneToken("initial", "name", name);
    KeepLoneToken("initial", "tel_type", telType);
    KeepLoneToken("initial", "categories", categories);
    ReplaceHit([], PatInitial, PatName);
    assert PatInitial + [] == PatInitial;
    assert PatName + [] == PatName;
  }
}
