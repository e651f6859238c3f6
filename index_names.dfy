/** Canonical index names (src/lib/csv-store.ts:4-26, 67-71): a file name
    loses one trailing `.csv` (any letter case) and every character that is
    not an ASCII letter or digit; the lower-cased result is looked up in a
    table of known forensic artifact types, whose canonical spelling wins.
    Without a match the stripped name keeps its own letter case. */
module IndexNames {
  import opened Text
  import opened Ordered

  /** `KNOWN_INDEXES`, kept as its canonical spellings. Each key of the
      source table is the lower case of its spelling, so the key is derived
      here rather than written out a second time. */
  const KnownIndexes: seq<string> := [
    "AutoRun",
    "ConnectedDevices",
    "DefenderExclusions",
    "DNSCache",
    "Drivers",
    "InstalledSoftware",
    "IPConfiguration",
    "LocalUsers",
    "NetworkShare",
    "OfficeConnection",
    "OpenTCPConnection",
    "PowerShellHistory",
    "Process",
    "RemotelyOpenedFiles",
    "RunningServices",
    "ScheduledTasks",
    "ScheduledTasksRunInfo",
    "SecurityEvents",
    "ShadowCopy",
    "SMBShares",
    "Win32RegRunKey"
  ]

  /** `KNOWN_INDEXES[lower]`: the known spelling whose lower case is `lower`. */
  function LookupKnown(lower: string): (r: Option<string>)
    ensures r.Some? ==> r.value in KnownIndexes && Lower(r.value) == lower
    ensures r.None? ==> forall n :: n in KnownIndexes ==> Lower(n) != lower
  {
    FindByLower(KnownIndexes, lower)
  }

  function FindByLower(names: seq<string>, lower: string): (r: Option<string>)
    ensures r.Some? ==> r.value in names && Lower(r.value) == lower
    ensures r.None? ==> forall n :: n in names ==> Lower(n) != lower
  {
    if names == [] then None
    else if Lower(names[0]) == lower then Some(names[0])
    else FindByLower(names[1..], lower)
  }

  /** `fileName.replace(/\.csv$/i, "")`. */
  function StripCsvExtension(fileName: string): (r: string)
    ensures |fileName| >= 4 && Lower(fileName[|fileName| - 4..]) == ".csv" ==> fileName == r + fileName[|fileName| - 4..]
    ensures !(|fileName| >= 4 && Lower(fileName[|fileName| - 4..]) == ".csv") ==> r == fileName
  {
    if |fileName| >= 4 && Lower(fileName[|fileName| - 4..]) == ".csv" then fileName[..|fileName| - 4]
    else fileName
  }

  /** `s.replace(/[^a-zA-Z0-9]/g, "")`. */
  function KeepLettersAndDigits(s: string): (r: string)
    ensures AllLettersOrDigits(r)
    ensures |r| <= |s|
  {
    if s == [] then []
    else if IsAsciiLetterOrDigit(s[0]) then [s[0]] + KeepLettersAndDigits(s[1..])
    else KeepLettersAndDigits(s[1..])
  }

  /** A single character is kept exactly when it is an ASCII letter or digit. */
  lemma KeepOne(c: char)
    ensures KeepLettersAndDigits([c]) == if IsAsciiLetterOrDigit(c) then [c] else []
  {
    assert [c][1..] == [];
  }

  /** The replacement works character by character: every ASCII letter and digit is kept, in order. */
  lemma {:induction false} KeepLettersAndDigitsAppend(a: string, b: string)
    ensures KeepLettersAndDigits(a + b) == KeepLettersAndDigits(a) + KeepLettersAndDigits(b)
    decreases |a|
  {
    if a == [] {
      assert a + b == b;
    } else {
      var rest := KeepLettersAndDigits(a[1..]);
      assert (a + b)[0] == a[0] && (a + b)[1..] == a[1..] + b;
      KeepLettersAndDigitsAppend(a[1..], b);
      if IsAsciiLetterOrDigit(a[0]) {
        assert KeepLettersAndDigits(a + b) == [a[0]] + (rest + KeepLettersAndDigits(b));
        assert KeepLettersAndDigits(a) == [a[0]] + rest;
      } else {
        assert KeepLettersAndDigits(a + b) == rest + KeepLettersAndDigits(b);
      }
    }
  }

  /** Removing non-alphanumerics from an alphanumeric string changes nothing. */
  lemma {:induction false} KeepLettersAndDigitsOfClean(s: string)
    requires AllLettersOrDigits(s)
    ensures KeepLettersAndDigits(s) == s
  {
    if s != [] {
      KeepLettersAndDigitsOfClean(s[1..]);
    }
  }

  /** The file name without extension and punctuation. */
  function BaseName(fileName: string): string {
    KeepLettersAndDigits(StripCsvExtension(fileName))
  }

  /** A string whose lower case is alphanumeric is itself alphanumeric. */
  lemma AlphanumericFromLower(s: string)
    requires AllLettersOrDigits(Lower(s))
    ensures AllLettersOrDigits(s)
  {
    forall i | 0 <= i < |s| ensures IsAsciiLetterOrDigit(s[i]) {
      assert IsAsciiLetterOrDigit(Lower(s)[i]);
    }
  }

  /** `normalizeIndexName`. */
  function NormalizeIndexName(fileName: string): (name: string)
  {
    var base := BaseName(fileName);
    match LookupKnown(Lower(base))
    case Some(canonical) => canonical
    case None => base
  }

  /** The canonical name is made of ASCII letters and digits and differs from
      the stripped base name at most in letter case, and only when the table
      knows the name. */
  lemma NormalizeShape(fileName: string)
    ensures AllLettersOrDigits(NormalizeIndexName(fileName))
    ensures Lower(NormalizeIndexName(fileName)) == Lower(BaseName(fileName))
    ensures NormalizeIndexName(fileName) == BaseName(fileName) || LookupKnown(Lower(BaseName(fileName))).Some?
  {
    var base := BaseName(fileName);
    var name := NormalizeIndexName(fileName);
    assert AllLettersOrDigits(Lower(base));
    AlphanumericFromLower(name);
  }

  /** An alphanumeric name is its own base name: it has no `.` to strip. */
  lemma BaseNameOfClean(s: string)
    requires AllLettersOrDigits(s)
    ensures BaseName(s) == s
  {
    if |s| >= 4 {
      assert s[|s| - 4..][0] == s[|s| - 4];
      assert Lower(s[|s| - 4..])[0] != '.';
    }
    KeepLettersAndDigitsOfClean(s);
  }

  /** Normalizing a canonical name gives it back. */
  lemma NormalizeIdempotent(fileName: string)
    ensures NormalizeIndexName(NormalizeIndexName(fileName)) == NormalizeIndexName(fileName)
  {
    var name := NormalizeIndexName(fileName);
    NormalizeShape(fileName);
    BaseNameOfClean(name);
  }

  /** Two file names land in the same index exactly when their stripped
      base names are equal, or equal up to letter case and known to the
      table: `a.csv` and `A.CSV` give two indexes unless `a` is a known name. */
  lemma SameIndexIff(f1: string, f2: string)
    ensures NormalizeIndexName(f1) == NormalizeIndexName(f2) <==>
      BaseName(f1) == BaseName(f2) ||
      (Lower(BaseName(f1)) == Lower(BaseName(f2)) && LookupKnown(Lower(BaseName(f1))).Some?)
  {
    NormalizeShape(f1);
    NormalizeShape(f2);
  }
}
