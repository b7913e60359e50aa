/** File names: the temporary output name and the automatically numbered backup
    name. Listing the directory, copying and deleting files are not modelled:
    the listing is given. */
module FileFns {
  import opened Strings
  import opened Decimal

  /** `make_tmp_filename`. */
  function TmpName(filename: string): (r: string)
    ensures |r| == |filename| + 4 && r[..|filename|] == filename
    ensures r[|filename|..] == ".tmp"
  {
    filename + ".tmp"
  }

  /** The temporary name is never the name itself, and different names get
      different temporary names. */
  lemma TmpNameDistinct(a: string, b: string)
    ensures TmpName(a) != a
    ensures TmpName(a) == TmpName(b) ==> a == b
  {
    if TmpName(a) == TmpName(b) {
      assert a == TmpName(a)[..|a|];
    }
  }

  // ---------------------------------------------------------------------------
  // The pattern `{filename}.bup([0-9]{4})+`

  /** Four ASCII digits start at `q`. */
  predicate IsDigitBlock(s: string, q: nat)
  {
    q + 4 <= |s| && AllAsciiDigits(s[q..q + 4])
  }

  /** The pattern starts matching at `p`: the file name as literal text (it is
      escaped), any char but '\n' (the `.` is not escaped), `bup`, and at least
      one block of four digits. */
  predicate BupAt(s: string, filename: string, p: nat)
  {
    && OccursAt(s, p, filename)
    && p + |filename| + 4 <= |s|
    && s[p + |filename|] != '\n'
    && s[p + |filename| + 1..p + |filename| + 4] == "bup"
    && IsDigitBlock(s, p + |filename| + 4)
  }

  /** The leftmost start of a match at or after `from`. */
  function FirstBup(s: string, filename: string, from: nat): (r: Option<nat>)
    ensures r.Some? ==> from <= r.value && BupAt(s, filename, r.value)
    decreases |s| - from
  {
    if from > |s| then None
    else if BupAt(s, filename, from) then Some(from)
    else FirstBup(s, filename, from + 1)
  }

  /** The search finds the leftmost match, and finds none only when there is
      none. */
  lemma {:induction false} FirstBupSpec(s: string, filename: string, from: nat)
    ensures var r := FirstBup(s, filename, from);
      && (r.Some? ==> forall p: nat :: from <= p < r.value ==> !BupAt(s, filename, p))
      && (r.None? ==> forall p: nat :: from <= p ==> !BupAt(s, filename, p))
    decreases |s| - from
  {
    if from <= |s| && !BupAt(s, filename, from) {
      FirstBupSpec(s, filename, from + 1);
    }
  }

  /** The greedy `+` takes every block that follows; the group keeps the last. */
  function LastBlock(s: string, q: nat): (b: nat)
    requires IsDigitBlock(s, q)
    ensures q <= b && (b - q) % 4 == 0
    ensures IsDigitBlock(s, b) && !IsDigitBlock(s, b + 4)
    decreases |s| - q
  {
    if IsDigitBlock(s, q + 4) then LastBlock(s, q + 4) else q
  }

  /** The number one listed file carries: `c.get(1)` parsed as an integer, or
      None when the pattern does not match. The group is four ASCII digits, so
      the parse cannot fail and the number is below 10000. */
  function BupNumber(s: string, filename: string): (r: Option<nat>)
    ensures r.Some? ==> r.value < 10000
  {
    match FirstBup(s, filename, 0)
    case None => None
    case Some(p) =>
      var b := LastBlock(s, p + |filename| + 4);
      Some(TextToNat(s[b..b + 4]))
  }

  /** A listed file carries a number exactly when the pattern matches it
      somewhere. */
  lemma BupNumberSpec(s: string, filename: string)
    ensures BupNumber(s, filename).None? <==> forall p: nat :: !BupAt(s, filename, p)
  {
    FirstBupSpec(s, filename, 0);
  }

  /** `last_number` after the loop: the largest number among the listed files,
      taken in order, or 0 when none matches. */
  function LastNumber(files: seq<string>, filename: string): (r: nat)
    ensures r < 10000
  {
    if files == [] then 0
    else
      var m := LastNumber(files[..|files| - 1], filename);
      match BupNumber(files[|files| - 1], filename)
      case None => m
      case Some(n) => if m < n then n else m
  }

  /** The loop keeps the largest number seen: it is at least every listed
      file's number, and it is 0 or the number of some listed file. */
  lemma {:induction false} LastNumberSpec(files: seq<string>, filename: string)
    ensures var r := LastNumber(files, filename);
      && (forall i :: 0 <= i < |files| && BupNumber(files[i], filename).Some? ==>
            BupNumber(files[i], filename).value <= r)
      && (r == 0 || exists i :: 0 <= i < |files| && BupNumber(files[i], filename) == Some(r))
  {
    if files != [] {
      var init := files[..|files| - 1];
      LastNumberSpec(init, filename);
      assert forall i :: 0 <= i < |init| ==> init[i] == files[i];
    }
  }

  /** `get_new_bup_filename` given the listing of the file's directory, None
      when the directory cannot be read. */
  function NewBupName(filename: string, listing: Option<seq<string>>): (r: string)
    ensures filename + ".bup" <= r && |r| >= |filename| + 8
  {
    match listing
    case None => filename + ".bup0001"
    case Some(files) => filename + ".bup" + ZeroPad4(LastNumber(files, filename) + 1)
  }

  /** What the new name means. Without a listing it is backup 1. With one it is
      backup n for an n from 1 to 10000 above every listed backup's number, 1
      when nothing matches; below 10000 the name reads back as n. */
  lemma NewBupNameSpec(filename: string, listing: Option<seq<string>>)
    ensures listing.None? ==> BupNumber(NewBupName(filename, listing), filename) == Some(1)
    ensures listing.Some? ==> exists n: nat ::
      && 1 <= n <= 10000
      && NewBupName(filename, listing) == filename + ".bup" + ZeroPad4(n)
      && (forall i :: 0 <= i < |listing.value| && BupNumber(listing.value[i], filename).Some? ==>
            BupNumber(listing.value[i], filename).value < n)
      && ((forall i :: 0 <= i < |listing.value| ==> BupNumber(listing.value[i], filename).None?) ==> n == 1)
      && (n < 10000 ==> BupNumber(NewBupName(filename, listing), filename) == Some(n))
  {
    match listing
    case None =>
      assert ZeroPad4(1) == "0001";
      assert ".bup" + "0001" == ".bup0001";
      AppendAssoc(filename, ".bup", "0001");
      BackupNumberRoundTrip(filename, 1);
    case Some(files) =>
      var n := LastNumber(files, filename) + 1;
      NewNumberAboveAll(filename, files);
      if n < 10000 {
        BackupNumberRoundTrip(filename, n);
      }
      assert NewBupName(filename, listing) == filename + ".bup" + ZeroPad4(n);
  }

  // ---------------------------------------------------------------------------
  // Properties

  /** The number of a new backup is one more than every number found, and 1
      when nothing matches. */
  lemma NewNumberAboveAll(filename: string, files: seq<string>)
    ensures var n := LastNumber(files, filename) + 1;
      && 1 <= n <= 10000
      && (forall i :: 0 <= i < |files| && BupNumber(files[i], filename).Some? ==>
            BupNumber(files[i], filename).value < n)
      && ((forall i :: 0 <= i < |files| ==> BupNumber(files[i], filename).None?) ==> n == 1)
  {
    LastNumberSpec(files, filename);
  }

  /** The name of a backup reads back as its number. */
  lemma {:induction false} BackupNumberRoundTrip(filename: string, k: nat)
    requires k < 10000
    ensures BupNumber(filename + ".bup" + ZeroPad4(k), filename) == Some(k)
  {
    var d := ZeroPad4(k);
    var s := filename + ".bup" + d;
    var q := |filename| + 4;
    assert s[..|filename|] == filename;
    assert s[|filename|] == '.';
    assert s[|filename| + 1..q] == "bup";
    assert s[q..q + 4] == d;
    assert BupAt(s, filename, 0);
    assert FirstBup(s, filename, 0) == Some(0);
    assert !IsDigitBlock(s, q + 4);
    assert LastBlock(s, q) == q;
  }

  /** A new backup never takes the name of a listed backup: every listed
      `filename.bupNNNN` carries a smaller number. */
  lemma NewBupNameFresh(filename: string, files: seq<string>, k: nat)
    requires k < 10000 && filename + ".bup" + ZeroPad4(k) in files
    ensures NewBupName(filename, Some(files)) != filename + ".bup" + ZeroPad4(k)
  {
    var i :| 0 <= i < |files| && files[i] == filename + ".bup" + ZeroPad4(k);
    BackupNumberRoundTrip(filename, k);
    LastNumberSpec(files, filename);
    var n := LastNumber(files, filename) + 1;
    ZeroPad4Injective(n, k);
    AppendCancel(filename + ".bup", ZeroPad4(n), ZeroPad4(k));
  }

  lemma AppendCancel(p: string, x: string, y: string)
    ensures p + x == p + y ==> x == y
  {
    if p + x == p + y {
      assert (p + x)[|p|..] == x && (p + y)[|p|..] == y;
    }
  }

  lemma ZeroPad4Injective(a: nat, b: nat)
    ensures ZeroPad4(a) == ZeroPad4(b) ==> a == b
  {
  }

  /** Gaps are ignored: with backups 0001 and 0003 the next one is 0004. */
  lemma NextAfterGap(filename: string, first: string, third: string)
    requires first == filename + ".bup" + ZeroPad4(1)
    requires third == filename + ".bup" + ZeroPad4(3)
    ensures NewBupName(filename, Some([first, third])) == filename + ".bup" + ZeroPad4(4)
  {
    BackupNumberRoundTrip(filename, 1);
    BackupNumberRoundTrip(filename, 3);
    LastOfTwo(filename, first, third, 1, 3);
    NewBupNameAfter(filename, [first, third], 3);
  }

  /** Two listed backups in increasing order: the later one's number is kept. */
  lemma LastOfTwo(filename: string, a: string, b: string, m: nat, n: nat)
    requires BupNumber(a, filename) == Some(m) && BupNumber(b, filename) == Some(n)
    requires m < n
    ensures LastNumber([a, b], filename) == n
  {
    LastNumberPush([], a, filename);
    assert [] + [a] == [a];
    LastNumberPush([a], b, filename);
    assert [a] + [b] == [a, b];
  }

  /** The four-digit texts of the example. */
  lemma PaddedExamples()
    ensures ZeroPad4(1) == "0001" && ZeroPad4(3) == "0003" && ZeroPad4(4) == "0004"
  {
    assert NatToText(1) == "1" && NatToText(3) == "3" && NatToText(4) == "4";
    assert Zeros(3) == "000";
  }

  /** Past 9999 the numbering stops growing: the backup after `bup9999` is
      `bup10000`, which matches with the block `1000` as its last, so the backup
      after both gets the name `bup10000` again. */
  lemma NumberingStopsAt10000(filename: string, last: string, next: string)
    requires last == filename + ".bup" + ZeroPad4(9999)
    requires next == filename + ".bup10000"
    ensures NewBupName(filename, Some([last])) == next
    ensures BupNumber(next, filename) == Some(1000)
    ensures NewBupName(filename, Some([last, next])) == next
  {
    LastIs9999(filename, [last]);
    ReadsAs1000(filename);
    LastStays9999(filename, [last], next);
    assert [last] + [next] == [last, next];
    Name10000(filename);
    NewBupNameAfter(filename, [last], 9999);
    NewBupNameAfter(filename, [last, next], 9999);
  }

  lemma NewBupNameAfter(filename: string, files: seq<string>, m: nat)
    requires LastNumber(files, filename) == m
    ensures NewBupName(filename, Some(files)) == filename + ".bup" + ZeroPad4(m + 1)
  {
  }

  lemma LastIs9999(filename: string, files: seq<string>)
    requires files == [filename + ".bup" + ZeroPad4(9999)]
    ensures LastNumber(files, filename) == 9999
  {
    BackupNumberRoundTrip(filename, 9999);
    LastNumberPush([], files[0], filename);
    assert [] + [files[0]] == files;
  }

  lemma LastStays9999(filename: string, files: seq<string>, f: string)
    requires LastNumber(files, filename) == 9999
    requires BupNumber(f, filename) == Some(1000)
    ensures LastNumber(files + [f], filename) == 9999
  {
    LastNumberPush(files, f, filename);
  }

  /** The loop step: one more listed file raises the number to its own if that
      is larger. */
  lemma LastNumberPush(files: seq<string>, f: string, filename: string)
    ensures LastNumber(files + [f], filename)
         == match BupNumber(f, filename)
            case None => LastNumber(files, filename)
            case Some(n) => if LastNumber(files, filename) < n then n else LastNumber(files, filename)
  {
    assert (files + [f])[..|files|] == files;
  }

  lemma Name10000(filename: string)
    ensures filename + ".bup" + ZeroPad4(10000) == filename + ".bup10000"
  {
    Padded10000();
    assert ".bup" + "10000" == ".bup10000";
  }

  lemma Padded10000()
    ensures ZeroPad4(10000) == "10000"
  {
    assert NatToText(10) == NatToText(1) + "0";
    assert NatToText(100) == NatToText(10) + "0";
    assert NatToText(1000) == NatToText(100) + "0";
    assert NatToText(10000) == NatToText(1000) + "0";
  }

  lemma ReadsAs1000(filename: string)
    ensures BupNumber(filename + ".bup10000", filename) == Some(1000)
  {
    var s := filename + ".bup10000";
    var q := |filename| + 4;
    assert s[..|filename|] == filename;
    assert s[|filename| + 1..q] == "bup";
    assert s[q..q + 4] == "1000";
    assert BupAt(s, filename, 0);
    assert FirstBup(s, filename, 0) == Some(0);
    assert !IsDigitBlock(s, q + 4);
    assert LastBlock(s, q) == q;
    assert TextToNat("1000") == 1000 by {
      assert "1000"[..3] == "100" && "100"[..2] == "10" && "10"[..1] == "1";
    }
  }
}
