/**
 * The output file names: the CSV name `<entity>_data_<YYYYMMDD>.csv` and the
 * spreadsheet name derived from it by `output_file.replace('.csv', '.xlsx')`.
 */
module Paths {

  /** `s` has the text ".csv" starting at index `i`. */
  predicate CsvAt(s: string, i: int) {
    0 <= i && i + 4 <= |s| && s[i] == '.' && s[i + 1] == 'c' && s[i + 2] == 's' && s[i + 3] == 'v'
  }

  /** Python's `s.replace('.csv', '.xlsx')`: occurrences are found left to right
      and never overlap. Every character survives except those of a replaced
      ".csv", and the first character is always kept as it is (".xlsx" starts
      with the same '.' as ".csv"). */
  function ReplaceCsv(s: string): (r: string)
    ensures |s| <= |r|
    ensures s != [] ==> r[0] == s[0]
  {
    if |s| < 4 then s
    else if CsvAt(s, 0) then ".xlsx" + ReplaceCsv(s[4..])
    else [s[0]] + ReplaceCsv(s[1..])
  }

  /** If the rewritten text starts with "csv", so did the original. */
  lemma {:induction false} CsvPrefixFromOriginal(s: string)
    requires |ReplaceCsv(s)| >= 3
    requires ReplaceCsv(s)[0] == 'c' && ReplaceCsv(s)[1] == 's' && ReplaceCsv(s)[2] == 'v'
    ensures |s| >= 3 && s[0] == 'c' && s[1] == 's' && s[2] == 'v'
  {
    var r := ReplaceCsv(s);
    if |s| < 4 {
      assert r == s;
    } else {
      var t := ReplaceCsv(s[1..]);
      assert r == [s[0]] + t;
      assert t[0] == s[1];
      var u := ReplaceCsv(s[2..]);
      if |s| < 5 {
        assert t == s[1..];
      } else {
        assert !CsvAt(s[1..], 0);
        assert t == [s[1]] + u;
        assert u[0] == s[2];
      }
    }
  }

  /** No ".csv" is left in the spreadsheet name. */
  lemma {:induction false} NoCsvLeft(s: string)
    ensures forall i :: !CsvAt(ReplaceCsv(s), i)
  {
    var r := ReplaceCsv(s);
    if |s| < 4 {
    } else if CsvAt(s, 0) {
      var t := ReplaceCsv(s[4..]);
      NoCsvLeft(s[4..]);
      assert r == ".xlsx" + t;
      forall i ensures !CsvAt(r, i) {
        if 5 <= i && i + 4 <= |r| {
          assert r[i] == t[i - 5] && r[i + 1] == t[i - 4] && r[i + 2] == t[i - 3] && r[i + 3] == t[i - 2];
          assert !CsvAt(t, i - 5);
        } else if 0 <= i < 5 {
          assert r[1] == 'x' && r[2] == 'l' && r[3] == 's' && r[4] == 'x';
        }
      }
    } else {
      var t := ReplaceCsv(s[1..]);
      NoCsvLeft(s[1..]);
      assert r == [s[0]] + t;
      forall i ensures !CsvAt(r, i) {
        if 1 <= i && i + 4 <= |r| {
          assert r[i] == t[i - 1] && r[i + 1] == t[i] && r[i + 2] == t[i + 1] && r[i + 3] == t[i + 2];
          assert !CsvAt(t, i - 1);
        } else if i == 0 && |r| >= 4 && t[0] == 'c' && t[1] == 's' && t[2] == 'v' {
          CsvPrefixFromOriginal(s[1..]);
          assert r[0] == s[0];
        }
      }
    }
  }

  /** A name holding no ".csv" is left as it is: only the occurrences change. */
  lemma {:induction false} NoCsvUnchanged(s: string)
    requires forall i :: !CsvAt(s, i)
    ensures ReplaceCsv(s) == s
  {
    if |s| >= 4 {
      assert !CsvAt(s, 0);
      forall i ensures !CsvAt(s[1..], i) {
        assert !CsvAt(s, i + 1);
      }
      NoCsvUnchanged(s[1..]);
    }
  }

  /** A ".csv" that follows text `a` is replaced by ".xlsx", and the text on either
      side is rewritten on its own: no occurrence can straddle `a` and the ".csv",
      since "csv" holds no '.'. With `NoCsvUnchanged` this fixes the result of the
      replacement for every name. */
  lemma {:induction false} CsvInfix(a: string, b: string)
    ensures ReplaceCsv(a + (".csv" + b)) == ReplaceCsv(a) + (".xlsx" + ReplaceCsv(b))
  {
    if a == [] {
      InfixBase(b);
      assert a + (".csv" + b) == ".csv" + b;
    } else if |a| >= 4 && CsvAt(a, 0) {
      CsvInfix(a[4..], b);
      InfixStepReplaced(a, b);
    } else {
      CsvInfix(a[1..], b);
      InfixStepKept(a, b);
    }
  }

  /** Base case of `CsvInfix`: a leading ".csv" is replaced. */
  lemma InfixBase(b: string)
    ensures ReplaceCsv(".csv" + b) == ".xlsx" + ReplaceCsv(b)
  {
    var s := ".csv" + b;
    assert CsvAt(s, 0);
    assert s[4..] == b;
  }

  /** Induction step of `CsvInfix` when `a` starts with ".csv". */
  lemma InfixStepReplaced(a: string, b: string)
    requires |a| >= 4 && CsvAt(a, 0)
    requires ReplaceCsv(a[4..] + (".csv" + b)) == ReplaceCsv(a[4..]) + (".xlsx" + ReplaceCsv(b))
    ensures ReplaceCsv(a + (".csv" + b)) == ReplaceCsv(a) + (".xlsx" + ReplaceCsv(b))
  {
    var c := ".csv" + b;
    var s := a + c;
    var x := ReplaceCsv(a[4..]);
    var y := ".xlsx" + ReplaceCsv(b);
    assert s[0] == a[0] && s[1] == a[1] && s[2] == a[2] && s[3] == a[3];
    DropOfAppend(a, c, 4);
    AppendAssoc(".xlsx", x, y);
    calc {
      ReplaceCsv(s);
      ".xlsx" + ReplaceCsv(s[4..]);
      ".xlsx" + (x + y);
      (".xlsx" + x) + y;
      ReplaceCsv(a) + y;
    }
  }

  /** Induction step of `CsvInfix` when the first character of `a` is kept. */
  lemma InfixStepKept(a: string, b: string)
    requires a != [] && !(|a| >= 4 && CsvAt(a, 0))
    requires ReplaceCsv(a[1..] + (".csv" + b)) == ReplaceCsv(a[1..]) + (".xlsx" + ReplaceCsv(b))
    ensures ReplaceCsv(a + (".csv" + b)) == ReplaceCsv(a) + (".xlsx" + ReplaceCsv(b))
  {
    var c := ".csv" + b;
    var s := a + c;
    var x := ReplaceCsv(a[1..]);
    var y := ".xlsx" + ReplaceCsv(b);
    KeptFrontBeforeCsv(a, b);
    KeptFront(s);
    KeptFront(a);
    DropOfAppend(a, c, 1);
    AppendAssoc([a[0]], x, y);
    calc {
      ReplaceCsv(s);
      [s[0]] + ReplaceCsv(s[1..]);
      [a[0]] + (x + y);
      ([a[0]] + x) + y;
      ReplaceCsv(a) + y;
    }
  }

  /** Text without a leading ".csv" keeps failing the front test when ".csv" and
      more follow it: that '.' would have to stand for one of "csv". */
  lemma KeptFrontBeforeCsv(a: string, b: string)
    requires a != [] && !(|a| >= 4 && CsvAt(a, 0))
    ensures !CsvAt(a + (".csv" + b), 0)
  {
    var s := a + (".csv" + b);
    if |a| == 1 { assert s[1] == '.'; }
    else if |a| == 2 { assert s[2] == '.'; }
    else if |a| == 3 { assert s[3] == '.'; }
    else { assert s[0] == a[0] && s[1] == a[1] && s[2] == a[2] && s[3] == a[3]; }
  }

  /** Rewriting a name ending in ".csv" rewrites the stem and turns that final
      ".csv" into ".xlsx". */
  lemma CsvSuffixBecomesXlsx(stem: string)
    ensures ReplaceCsv(stem + ".csv") == ReplaceCsv(stem) + ".xlsx"
  {
    CsvInfix(stem, []);
    assert ".csv" + [] == ".csv" && ".xlsx" + ReplaceCsv([]) == ".xlsx";
  }

  /** Without a leading ".csv" the first character is copied and the rest rewritten. */
  lemma KeptFront(s: string)
    requires s != [] && !(|s| >= 4 && CsvAt(s, 0))
    ensures ReplaceCsv(s) == [s[0]] + ReplaceCsv(s[1..])
  {
    if |s| < 4 {
      assert ReplaceCsv(s[1..]) == s[1..];
      assert [s[0]] + s[1..] == s;
    }
  }

  /** Two sequence facts Dafny knows unaided, stated as lemmas so that the proofs
      above can use them without unfolding `ReplaceCsv` around them. */
  lemma DropOfAppend(a: string, b: string, n: nat)
    requires n <= |a|
    ensures (a + b)[n..] == a[n..] + b
  {
  }

  lemma AppendAssoc(a: string, b: string, c: string)
    ensures a + (b + c) == (a + b) + c
  {
  }

  /** The CSV name both scripts build in `main`, from the date stamp `YYYYMMDD`. */
  function CsvPath(entity: string, date: string): (p: string)
    ensures CsvAt(p, |p| - 4)
  {
    entity + "_data_" + date + ".csv"
  }

  /** The spreadsheet name `load_data` writes beside a CSV name. */
  function SpreadsheetPath(csv: string): (p: string)
    ensures forall i :: !CsvAt(p, i)
  {
    NoCsvLeft(csv);
    ReplaceCsv(csv)
  }

  /** For the names built in `main`, the spreadsheet name is the CSV name with
      its ".csv" extension changed to ".xlsx" and nothing else changed, as long as
      neither the entity nor the date contains a '.'. */
  lemma SpreadsheetBesideCsv(entity: string, date: string)
    requires '.' !in entity && '.' !in date
    ensures SpreadsheetPath(CsvPath(entity, date)) == entity + "_data_" + date + ".xlsx"
  {
    var stem := entity + "_data_" + date;
    assert '.' !in stem by {
      forall k | 0 <= k < |stem| ensures stem[k] != '.' {
        if k < |entity| { assert stem[k] == entity[k]; }
        else if k < |entity| + 6 { assert stem[k] == "_data_"[k - |entity|]; }
        else { assert stem[k] == date[k - |entity| - 6]; }
      }
    }
    assert forall i :: !CsvAt(stem, i);
    NoCsvUnchanged(stem);
    CsvSuffixBecomesXlsx(stem);
    assert CsvPath(entity, date) == stem + ".csv";
  }
}
