/**
 * The string helpers the two scripts apply to file names: `str.endswith`,
 * the library name `file_name.replace('.csv', '')` and the transcript name
 * `name.rsplit('.', 1)[0] + '.txt'`.
 */
module Names {
  import opened Wrappers

  /** `s.endswith(suffix)` */
  predicate EndsWith(s: string, suffix: string)
    ensures EndsWith(s, suffix) <==> exists prefix :: prefix + suffix == s
  {
    var ends := |suffix| <= |s| && s[|s| - |suffix|..] == suffix;
    assert ends ==> s[..|s| - |suffix|] + suffix == s;
    assert forall prefix :: prefix + suffix == s ==> (prefix + suffix)[|prefix|..] == suffix;
    ends
  }

  /**
   * `s.replace(pat, '')` for a non-empty pattern: occurrences are found from
   * the left and do not overlap, and every one of them is removed.
   */
  function RemoveAll(s: string, pat: string): (r: string)
    requires pat != []
    ensures |r| <= |s|
    decreases |s|
  {
    if |s| < |pat| then s
    else if s[..|pat|] == pat then RemoveAll(s[|pat|..], pat)
    else [s[0]] + RemoveAll(s[1..], pat)
  }

  /** The library a CSV file is shown as: its name with every ".csv" removed. */
  function LibraryName(fileName: string): (r: string)
    ensures |r| <= |fileName|
  {
    RemoveAll(fileName, ".csv")
  }

  /** A pattern whose first character never occurs in `base` is removed from `base + pat` as a suffix. */
  lemma {:induction false} RemoveAllTrailing(base: string, pat: string)
    requires pat != [] && pat[0] !in base
    ensures RemoveAll(base + pat, pat) == base
    decreases |base|
  {
    var s := base + pat;
    if base == [] {
      assert s[..|pat|] == pat && s[|pat|..] == [];
    } else {
      assert s[0] == base[0] != pat[0];
      assert s[..|pat|] != pat;
      assert s[1..] == base[1..] + pat;
      RemoveAllTrailing(base[1..], pat);
      assert [base[0]] + base[1..] == base;
    }
  }


  lemma RemoveAllLeading(s: string, pat: string)
    requires pat != []
    ensures RemoveAll(pat + s, pat) == RemoveAll(s, pat)
  {
    assert (pat + s)[..|pat|] == pat && (pat + s)[|pat|..] == s;
  }

  lemma RemoveAllKeeps(c: char, s: string, pat: string)
    requires pat != [] && c != pat[0]
    ensures RemoveAll([c] + s, pat) == [c] + RemoveAll(s, pat)
  {
    var t := [c] + s;
    assert t[1..] == s;
    if |t| >= |pat| {
      assert t[..|pat|][0] == c;
    } else {
      assert RemoveAll(s, pat) == s;
    }
  }

  /** The derivation removes every ".csv", not only a trailing one, so two files share library "a". */
  lemma TwoFilesOneLibrary()
    ensures LibraryName("a.csv.csv") == "a" && LibraryName("a.csv") == "a"
  {
    var csv := ".csv";
    RemoveAllLeading([], csv);
    RemoveAllLeading(csv, csv);
    assert "a.csv.csv" == ['a'] + (csv + csv);
    RemoveAllKeeps('a', csv + csv, csv);
    PlainLibraryName("a");
  }

  /** An occurrence after a prefix free of `pat[0]` is removed, and the rest is scanned on. */
  lemma {:induction false} RemoveAllAfterPlainPrefix(prefix: string, pat: string, rest: string)
    requires pat != [] && pat[0] !in prefix
    ensures RemoveAll(prefix + pat + rest, pat) == prefix + RemoveAll(rest, pat)
    decreases |prefix|
  {
    if prefix == [] {
      RemoveAllLeading(rest, pat);
      assert prefix + pat + rest == pat + rest;
    } else {
      assert prefix + pat + rest == [prefix[0]] + (prefix[1..] + pat + rest);
      RemoveAllKeeps(prefix[0], prefix[1..] + pat + rest, pat);
      RemoveAllAfterPlainPrefix(prefix[1..], pat, rest);
      assert [prefix[0]] + prefix[1..] == prefix;
    }
  }

  /** A ".csv" starts at position `i` of `s`. */
  predicate CsvAt(s: string, i: nat) {
    i + 4 <= |s| && s[i..i + 4] == ".csv"
  }

  /** `s` contains no ".csv". */
  predicate CsvFree(s: string) {
    forall i: nat :: i < |s| ==> !CsvAt(s, i)
  }

  /**
   * The first ".csv" after a stem free of ".csv" is removed, and the rest is
   * scanned on. No occurrence can straddle the stem and the ".csv", because
   * no proper prefix of ".csv" is also a suffix of it.
   */
  lemma {:induction false} RemoveAllAfterCsvFree(stem: string, rest: string)
    requires CsvFree(stem)
    ensures LibraryName(stem + ".csv" + rest) == stem + LibraryName(rest)
    decreases |stem|
  {
    var csv := ".csv";
    var s := stem + csv + rest;
    if stem == [] {
      RemoveAllLeading(rest, csv);
      assert s == csv + rest;
    } else {
      var t := stem[1..] + csv + rest;
      assert stem == [stem[0]] + stem[1..];
      assert s == [stem[0]] + t;
      assert s[..4] != csv by {
        if |stem| >= 4 {
          assert !CsvAt(stem, 0);
          assert s[..4] == stem[0..4];
        } else {
          assert s[|stem|] == '.';
          assert csv[|stem|] != '.';
          assert s[..4][|stem|] == s[|stem|];
        }
      }
      assert CsvFree(stem[1..]) by {
        forall i: nat | i < |stem[1..]|
          ensures !CsvAt(stem[1..], i)
        {
          assert !CsvAt(stem, i + 1);
          if i + 4 <= |stem[1..]| {
            assert stem[1..][i..i + 4] == stem[i + 1..i + 5];
          }
        }
      }
      RemoveAllAfterCsvFree(stem[1..], rest);
    }
  }

  /** For a file name whose stem contains no ".csv", dotted or not, the library name is the stem. */
  lemma PlainLibraryName(stem: string)
    requires CsvFree(stem)
    ensures LibraryName(stem + ".csv") == stem
  {
    RemoveAllAfterCsvFree(stem, []);
    assert stem + ".csv" + [] == stem + ".csv";
  }

  /** An inner ".csv" is removed as well: `LibraryName(stem + ".csv" + rest) == stem + LibraryName(rest)`. */
  lemma InnerOccurrenceRemoved(stem: string, rest: string)
    requires CsvFree(stem)
    ensures LibraryName(stem + ".csv" + rest) == stem + LibraryName(rest)
  {
    RemoveAllAfterCsvFree(stem, rest);
  }

  /** A dotted stem is kept whole: "my.books.csv" is library "my.books". */
  lemma DottedLibraryName()
    ensures LibraryName("my.books.csv") == "my.books"
  {
    var stem := "my.books";
    assert CsvFree(stem) by {
      forall i: nat | i < |stem|
        ensures !CsvAt(stem, i)
      {
        if i + 4 <= |stem| {
          assert stem[i..i + 4][3] == stem[i + 3] != 'v';
        }
      }
    }
    PlainLibraryName(stem);
    assert stem + ".csv" == "my.books.csv";
  }

  /** The position of the last '.', where `rsplit('.', 1)` splits. */
  function LastDot(s: string): (r: Option<nat>)
    ensures r.None? <==> '.' !in s
    ensures r.Some? ==> r.value < |s| && s[r.value] == '.' && '.' !in s[r.value + 1..]
  {
    if s == [] then None
    else if s[|s| - 1] == '.' then Some(|s| - 1)
    else
      var r := LastDot(s[..|s| - 1]);
      assert r.Some? ==> s[r.value + 1..] == s[..|s| - 1][r.value + 1..] + [s[|s| - 1]];
      assert s == s[..|s| - 1] + [s[|s| - 1]];
      r
  }

  /**
   * The file name an OCR transcript of image `imageName` is stored under:
   * the part before the last '.', or the whole name when it has none,
   * followed by ".txt".
   */
  function TxtName(imageName: string): (r: string)
    ensures EndsWith(r, ".txt")
    ensures '.' !in imageName ==> r == imageName + ".txt"
    ensures '.' in imageName ==>
      var stem := r[..|r| - 4];
      |stem| < |imageName| && imageName[..|stem|] == stem && imageName[|stem|] == '.' && '.' !in imageName[|stem| + 1..]
  {
    match LastDot(imageName)
    case None => imageName + ".txt"
    case Some(i) => imageName[..i] + ".txt"
  }

  /** The last '.' of `stem + "." + ext` is the one before `ext` when `ext` has none. */
  lemma {:induction false} LastDotBeforeExtension(stem: string, ext: string)
    requires '.' !in ext
    ensures LastDot(stem + "." + ext) == Some(|stem|)
    decreases |ext|
  {
    var s := stem + "." + ext;
    if ext == [] {
      assert s[|s| - 1] == '.';
    } else {
      var init := ext[..|ext| - 1];
      assert s[|s| - 1] == ext[|ext| - 1] != '.';
      assert s[..|s| - 1] == stem + "." + init;
      assert forall c :: c in init ==> c in ext;
      LastDotBeforeExtension(stem, init);
    }
  }

  /** `TxtName` replaces the last extension by ".txt". */
  lemma TxtNameReplacesExtension(stem: string, ext: string)
    requires '.' !in ext
    ensures TxtName(stem + "." + ext) == stem + ".txt"
  {
    LastDotBeforeExtension(stem, ext);
    assert (stem + "." + ext)[..|stem|] == stem;
  }

  /** A one-dot name: "shelf.jpg" gives "shelf.txt". */
  lemma TxtNameOneDot()
    ensures TxtName("shelf.jpg") == "shelf.txt"
  {
    assert "shelf.jpg" == "shelf" + "." + "jpg";
    TxtNameReplacesExtension("shelf", "jpg");
  }

  /** Only the last extension goes: "scan.2024.png" gives "scan.2024.txt". */
  lemma TxtNameTwoDots()
    ensures TxtName("scan.2024.png") == "scan.2024.txt"
  {
    assert "scan.2024.png" == "scan.2024" + "." + "png";
    TxtNameReplacesExtension("scan.2024", "png");
  }

  /** A name without a dot keeps it whole: "shelf" gives "shelf.txt". */
  lemma TxtNameNoDot()
    ensures TxtName("shelf") == "shelf.txt"
  {
    var name := "shelf";
    assert forall i :: 0 <= i < |name| ==> name[i] != '.';
  }
}
