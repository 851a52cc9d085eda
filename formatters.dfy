/** The display helpers of the web client: number grouping, hex
    truncation, error messages and row totals. */
module Formatters {
  import opened JsValues
  import opened Strings
  import opened CsvParser

  /** The default cut-off length of `truncateHex`. */
  const DefaultHexLength: nat := 12

  /** The message used when an error carries none. */
  const UnexpectedError: string := "An unexpected error occurred"

  // ---------------------------------------------------------------------
  // formatNumber

  /** The digits of `ds` with a `,` before every group of three, counted
      from the right (the en-US grouping of `toLocaleString`). */
  function GroupDigits(ds: string): (r: string)
    ensures ds != [] ==> |r| == |ds| + (|ds| - 1) / 3
    ensures ds != [] ==> r[0] == ds[0]
    decreases |ds|
  {
    if |ds| <= 3 then ds
    else GroupDigits(ds[..|ds| - 3]) + [','] + ds[|ds| - 3..]
  }

  /** The en-US rendering of an integer: an optional minus sign, then its
      digits grouped in threes. */
  function Grouped(n: int): string {
    if n < 0 then "-" + GroupDigits(NatToDigits(-n)) else GroupDigits(NatToDigits(n))
  }

  /** `formatNumber`: a number becomes its grouped rendering, anything else
      is returned unchanged. */
  function FormatNumber(num: Value): (r: Value)
    ensures !num.Num? ==> r == num
    ensures num.Num? ==> r.Str? && r.s != []
    ensures num.Num? ==> (r.s[0] == '-' <==> num.n < 0)
  {
    match num
    case Num(n) => Str(Grouped(n))
    case _ => num
  }

  /** `s` with its thousands separators removed. */
  function StripSeparators(s: string): (r: string)
    ensures ',' !in r
    ensures |r| <= |s|
    decreases |s|
  {
    if s == [] then []
    else if s[0] == ',' then StripSeparators(s[1..])
    else [s[0]] + StripSeparators(s[1..])
  }

  /** The groups between separators: the first holds one to three digits,
      every later one exactly three. */
  predicate WellGrouped(groups: seq<string>) {
    |groups| >= 1
    && 1 <= |groups[0]| <= 3
    && (forall i :: 1 <= i < |groups| ==> |groups[i]| == 3)
    && (forall i :: 0 <= i < |groups| ==> AllDigits(groups[i]))
  }

  lemma {:induction false} StripSeparatorsAppend(a: string, b: string)
    ensures StripSeparators(a + b) == StripSeparators(a) + StripSeparators(b)
    decreases |a|
  {
    if a == [] {
      assert a + b == b;
    } else {
      assert (a + b)[1..] == a[1..] + b;
      StripSeparatorsAppend(a[1..], b);
    }
  }

  lemma {:induction false} StripSeparatorsOfPlain(s: string)
    requires ',' !in s
    ensures StripSeparators(s) == s
    decreases |s|
  {
    if s != [] {
      StripSeparatorsOfPlain(s[1..]);
      assert s == [s[0]] + s[1..];
    }
  }

  /** Removing the separators from grouped digits gives the digits back. */
  lemma {:induction false} StripGroupDigits(ds: string)
    requires AllDigits(ds)
    ensures StripSeparators(GroupDigits(ds)) == ds
    decreases |ds|
  {
    if |ds| <= 3 {
      StripSeparatorsOfPlain(ds);
    } else {
      var pre, post := ds[..|ds| - 3], ds[|ds| - 3..];
      var g := GroupDigits(pre);
      StripGroupDigits(pre);
      StripSeparatorsAppend(g + [','], post);
      StripSeparatorsAppend(g, [',']);
      StripSeparatorsOfPlain(post);
      assert StripSeparators([',']) == [];
      TakeDrop(ds, |ds| - 3);
      calc {
        StripSeparators(GroupDigits(ds));
        StripSeparators(g + [',']) + StripSeparators(post);
        pre + [] + post;
        ds;
      }
    }
  }

  lemma TakeDrop(s: string, k: nat)
    requires k <= |s|
    ensures s[..k] + [] + s[k..] == s
  {
  }

  /** Grouped digits split on `,` into a well-formed grouping. */
  lemma {:induction false} GroupDigitsWellGrouped(ds: string)
    requires ds != [] && AllDigits(ds)
    ensures WellGrouped(Split(GroupDigits(ds), ','))
    decreases |ds|
  {
    if |ds| <= 3 {
      SplitWithoutSeparator(ds, ',');
    } else {
      var pre, post := ds[..|ds| - 3], ds[|ds| - 3..];
      GroupDigitsWellGrouped(pre);
      var g := Split(GroupDigits(pre), ',');
      assert Split(GroupDigits(ds), ',') == g + [post] by {
        SplitAt(GroupDigits(pre), post, ',');
        SplitWithoutSeparator(post, ',');
      }
      assert |post| == 3 && AllDigits(post);
    }
  }

  /** The rendering of a number is well grouped after its sign. */
  lemma FormatNumberWellGrouped(n: int)
    ensures var s := FormatNumber(Num(n)).s;
            WellGrouped(Split(if n < 0 then s[1..] else s, ','))
  {
    var ds := NatToDigits(if n < 0 then -n else n);
    GroupDigitsWellGrouped(ds);
    if n < 0 {
      assert ("-" + GroupDigits(ds))[1..] == GroupDigits(ds);
    }
  }

  /** Reading the rendering back with the separators removed gives the
      number again. */
  lemma FormatNumberReadsBack(n: int)
    ensures StripSeparators(FormatNumber(Num(n)).s) == IntToString(n)
    ensures ParseInt(StripSeparators(FormatNumber(Num(n)).s)) == Some(n)
  {
    var ds := NatToDigits(if n < 0 then -n else n);
    StripGroupDigits(ds);
    if n < 0 {
      StripSeparatorsAppend("-", GroupDigits(ds));
      assert StripSeparators("-") == "-";
    }
    assert StripSeparators(FormatNumber(Num(n)).s) == IntToString(n);
    ParseIntOfIntToString(n, []);
    assert IntToString(n) + [] == IntToString(n);
  }

  /** Numbers below a thousand in size carry no separator. */
  lemma FormatNumberSmall(n: int)
    requires -1000 < n < 1000
    ensures FormatNumber(Num(n)) == Str(IntToString(n))
  {
    var m: nat := if n < 0 then -n else n;
    FewDigits(m);
  }

  /** The last digit of `n` comes after the digits of `n / 10`. */
  lemma NatToDigitsStep(n: nat)
    requires n >= 10
    ensures NatToDigits(n) == NatToDigits(n / 10) + [DigitChar(n % 10)]
  {
  }

  lemma FewDigits(m: nat)
    requires m < 1000
    ensures |NatToDigits(m)| <= 3
  {
    if m >= 10 {
      NatToDigitsStep(m);
      if m >= 100 {
        NatToDigitsStep(m / 10);
      }
    }
  }

  lemma GroupDigitsExample()
    ensures GroupDigits("64075909") == "64,075,909"
  {
    assert "64075909"[..5] == "64075" && "64075909"[5..] == "909";
    assert "64075"[..2] == "64" && "64075"[2..] == "075";
    assert GroupDigits("64075") == "64,075";
  }

  lemma NatToDigitsExample()
    ensures NatToDigits(64075909) == "64075909"
  {
    NatToDigitsStep(64075909);
    NatToDigitsStep(6407590);
    NatToDigitsStep(640759);
    NatToDigitsStep(64075);
    NatToDigitsStep(6407);
    NatToDigitsStep(640);
    NatToDigitsStep(64);
  }

  lemma FormatNumberThousand()
    ensures FormatNumber(Num(1000)) == Str("1,000")
  {
    NatToDigitsStep(1000);
    NatToDigitsStep(100);
    NatToDigitsStep(10);
    assert NatToDigits(1000) == "1000";
    assert "1000"[..1] == "1" && "1000"[1..] == "000";
  }

  lemma FormatNumberExample()
    ensures FormatNumber(Num(64075909)) == Str("64,075,909")
  {
    NatToDigitsExample();
    GroupDigitsExample();
  }

  // ---------------------------------------------------------------------
  // truncateHex

  /** `truncateHex`: a falsy value or a non-string is returned unchanged, a
      string no longer than `length` too; a longer one is cut to its first
      `length` characters (none when `length` is negative, as `substring`
      clamps) followed by `...`. */
  function TruncateHex(hex: Value, length: int): (r: Value)
    ensures !Truthy(hex) || !hex.Str? ==> r == hex
    ensures hex.Str? && |hex.s| <= length ==> r == hex
    ensures hex.Str? && hex.s != [] && |hex.s| > length ==>
              var keep := if length < 0 then 0 else length;
              r.Str? && |r.s| == keep + 3
              && r.s[..keep] == hex.s[..keep] && r.s[keep..] == "..."
  {
    if !Truthy(hex) || !hex.Str? then hex
    else if |hex.s| > length then
      Str(hex.s[..if length < 0 then 0 else length] + "...")
    else hex
  }

  /** Truncating twice with the same non-negative length is truncating once. */
  lemma TruncateHexIdempotent(hex: Value, length: nat)
    ensures TruncateHex(TruncateHex(hex, length), length) == TruncateHex(hex, length)
  {
    if hex.Str? && |hex.s| > length {
      var r := TruncateHex(hex, length).s;
      assert r[..length] + "..." == r;
    }
  }

  lemma TruncateHexExamples()
    ensures TruncateHex(Str("70ad29aacf0b690b0467fe2b2767f765"), DefaultHexLength)
            == Str("70ad29aacf0b...")
    ensures TruncateHex(Str("70ad29aa"), DefaultHexLength) == Str("70ad29aa")
    ensures TruncateHex(Null, DefaultHexLength) == Null
    ensures TruncateHex(Str(""), DefaultHexLength) == Str("")
  {
    assert "70ad29aacf0b690b0467fe2b2767f765"[..12] == "70ad29aacf0b";
  }

  // ---------------------------------------------------------------------
  // getErrorMessage

  /** `getErrorMessage`: a string is the message itself; otherwise an
      object's truthy `message`; otherwise the generic message. */
  function GetErrorMessage(error: Value): (r: Value)
    ensures error.Str? ==> r == error
    ensures !error.Str? && error.Obj? && Truthy(error.message) ==> r == error.message
    ensures !error.Str? && !(error.Obj? && Truthy(error.message)) ==> r == Str(UnexpectedError)
  {
    if error.Str? then error
    else if error.Obj? && Truthy(error.message) then error.message
    else Str(UnexpectedError)
  }

  /** The message is something to show: it is falsy only when the error
      was itself the empty string. */
  lemma GetErrorMessageTruthy(error: Value)
    ensures !Truthy(GetErrorMessage(error)) <==> error == Str("")
  {
  }

  /** An `Error` built from a non-empty string reports that string. */
  lemma GetErrorMessageOfError(message: string)
    requires message != []
    ensures GetErrorMessage(Obj(Str(message))) == Str(message)
    ensures GetErrorMessage(Obj(Undefined)) == Str(UnexpectedError)
  {
  }

  // ---------------------------------------------------------------------
  // getTotalRows

  /** A file as the client receives it: its name and, when present, its
      parsed lines. */
  datatype FileEntry = FileEntry(file: string, lines: Option<seq<ParsedLine>>)

  /** `file.lines?.length || 0`. */
  function LineCount(f: FileEntry): nat {
    if f.lines.Some? then |f.lines.value| else 0
  }

  /** The `reduce` of `getTotalRows`: the line counts added from the first
      file to the last. */
  function SumRows(files: seq<FileEntry>): (total: nat)
    ensures files == [] ==> total == 0
    decreases |files|
  {
    if files == [] then 0
    else SumRows(files[..|files| - 1]) + LineCount(files[|files| - 1])
  }

  /** `getTotalRows`: 0 for a non-array, otherwise the sum of the line
      counts. */
  function GetTotalRows(files: Option<seq<FileEntry>>): (total: nat)
    ensures files.None? ==> total == 0
    ensures files.Some? ==> total == SumRows(files.value)
  {
    if files.None? then 0 else SumRows(files.value)
  }

  /** The total over two lists of files is the sum of their totals. */
  lemma {:induction false} SumRowsAppend(a: seq<FileEntry>, b: seq<FileEntry>)
    ensures SumRows(a + b) == SumRows(a) + SumRows(b)
    decreases |b|
  {
    if b == [] {
      assert a + b == a;
    } else {
      var last := b[|b| - 1];
      assert (a + b)[..|a + b| - 1] == a + b[..|b| - 1];
      SumRowsAppend(a, b[..|b| - 1]);
    }
  }

  /** The total of a file followed by others is its line count plus theirs. */
  lemma SumRowsCons(f: FileEntry, rest: seq<FileEntry>)
    ensures SumRows([f] + rest) == LineCount(f) + SumRows(rest)
  {
    SumRowsAppend([f], rest);
    assert [f][..0] == [];
  }

  /** Every file contributes all of its lines to the total. */
  lemma {:induction false} SumRowsBounds(files: seq<FileEntry>, i: nat)
    requires i < |files|
    ensures LineCount(files[i]) <= SumRows(files)
    decreases |files|
  {
    if i < |files| - 1 {
      SumRowsBounds(files[..|files| - 1], i);
    }
  }

  /** The total is 0 exactly when no file has a line. */
  lemma {:induction false} SumRowsZero(files: seq<FileEntry>)
    ensures SumRows(files) == 0 <==> forall i :: 0 <= i < |files| ==> LineCount(files[i]) == 0
    decreases |files|
  {
    if files != [] {
      SumRowsZero(files[..|files| - 1]);
      if SumRows(files) == 0 {
        forall i | 0 <= i < |files|
          ensures LineCount(files[i]) == 0
        {
          if i < |files| - 1 {
            assert files[..|files| - 1][i] == files[i];
          }
        }
      } else {
        if LineCount(files[|files| - 1]) == 0 {
          var i :| 0 <= i < |files| - 1 && LineCount(files[..|files| - 1][i]) != 0;
          assert files[..|files| - 1][i] == files[i];
        }
      }
    }
  }

  lemma GetTotalRowsExamples()
    ensures GetTotalRows(None) == 0
    ensures GetTotalRows(Some([])) == 0
    ensures forall l1, l2, l3, l4, l5 ::
              GetTotalRows(Some([FileEntry("a", Some([l1, l2, l3])), FileEntry("b", Some([l4, l5]))])) == 5
  {
    forall l1, l2, l3, l4, l5
      ensures GetTotalRows(Some([FileEntry("a", Some([l1, l2, l3])), FileEntry("b", Some([l4, l5]))])) == 5
    {
      var fs := [FileEntry("a", Some([l1, l2, l3])), FileEntry("b", Some([l4, l5]))];
      assert fs[..1] == [fs[0]];
      assert SumRows([fs[0]]) == 3 by {
        assert [fs[0]][..0] == [];
      }
    }
  }
}
