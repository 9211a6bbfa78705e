/** The `--states` argument of GenericFigure.py: `three_ints` turns "a,b,c"
    into three zero-based state numbers. It rests on two Python builtins,
    `str.split` with a separator and `int` applied to a string, which are
    modelled here on ASCII text. */
module ArgParsing {
  import opened Wrappers

  // ---------------------------------------------------------------------
  // str.split(sep) and its inverse, sep.join(fields)
  // ---------------------------------------------------------------------

  /** Python's `s.split(sep)` for a one-character separator: the pieces of
      `s` between consecutive separators, empty pieces included, so a string
      holding k separators always yields k + 1 fields. */
  function Split(s: string, sep: char): (fields: seq<string>)
    ensures |fields| == multiset(s)[sep] + 1
    ensures forall i :: 0 <= i < |fields| ==> sep !in fields[i]
  {
    if s == [] then [""]
    else
      var rest := Split(s[1..], sep);
      assert s == [s[0]] + s[1..];
      if s[0] == sep then [""] + rest
      else [[s[0]] + rest[0]] + rest[1..]
  }

  /** Python's `sep.join(fields)`. */
  function Join(fields: seq<string>, sep: char): string
    requires |fields| > 0
  {
    if |fields| == 1 then fields[0] else fields[0] + [sep] + Join(fields[1..], sep)
  }

  /** Joining the fields of a split gives back the original text. */
  lemma {:induction false} JoinOfSplit(s: string, sep: char)
    ensures Join(Split(s, sep), sep) == s
  {
    if s != [] {
      var rest := Split(s[1..], sep);
      JoinOfSplit(s[1..], sep);
      assert s == [s[0]] + s[1..];
      if s[0] == sep {
        var fields := [""] + rest;
        assert Split(s, sep) == fields;
        assert fields[1..] == rest;
        assert Join(fields, sep) == "" + [sep] + Join(rest, sep);
      } else {
        assert Split(s, sep) == [[s[0]] + rest[0]] + rest[1..];
        JoinPrependChar(s[0], rest, sep);
      }
    }
  }

  lemma JoinPrependChar(c: char, fields: seq<string>, sep: char)
    requires |fields| > 0
    ensures Join([[c] + fields[0]] + fields[1..], sep) == [c] + Join(fields, sep)
  {
    var joined := [[c] + fields[0]] + fields[1..];
    assert joined[1..] == fields[1..];
  }

  lemma {:induction false} SplitWithoutSeparator(a: string, sep: char)
    requires sep !in a
    ensures Split(a, sep) == [a]
  {
    if a != [] {
      SplitWithoutSeparator(a[1..], sep);
      assert [a[0]] + a[1..] == a;
    }
  }

  lemma {:induction false} SplitAfterField(a: string, b: string, sep: char)
    requires sep !in a
    ensures Split(a + [sep] + b, sep) == [a] + Split(b, sep)
  {
    if a == [] {
      assert ([sep] + b)[1..] == b;
    } else {
      SplitAfterField(a[1..], b, sep);
      assert (a + [sep] + b)[1..] == a[1..] + [sep] + b;
      assert [a[0]] + a[1..] == a;
    }
  }

  /** Splitting a join of separator-free fields recovers the fields. */
  lemma {:induction false} SplitOfJoin(fields: seq<string>, sep: char)
    requires |fields| > 0
    requires forall i :: 0 <= i < |fields| ==> sep !in fields[i]
    ensures Split(Join(fields, sep), sep) == fields
  {
    if |fields| == 1 {
      SplitWithoutSeparator(fields[0], sep);
    } else {
      SplitOfJoin(fields[1..], sep);
      SplitAfterField(fields[0], Join(fields[1..], sep), sep);
      assert [fields[0]] + fields[1..] == fields;
    }
  }

  // ---------------------------------------------------------------------
  // int(text) and its inverse, str(n)
  // ---------------------------------------------------------------------

  predicate IsDigit(c: char) { '0' as int <= c as int <= '9' as int }

  /** The ASCII characters `int()` skips around a literal: space, tab, line
      feed, vertical tab, form feed and carriage return (the C-locale
      whitespace set). The information separators 0x1C to 0x1F, for which
      `str.isspace()` holds, are not skipped: `int()` rejects them. */
  predicate IsSpace(c: char) { c == ' ' || '\t' <= c <= '\r' }

  function TrimStart(s: string): string
  {
    if s != [] && IsSpace(s[0]) then TrimStart(s[1..]) else s
  }

  function TrimEnd(s: string): string
  {
    if s != [] && IsSpace(s[|s| - 1]) then TrimEnd(s[..|s| - 1]) else s
  }

  /** `int()` ignores whitespace around the literal. */
  function Strip(s: string): string { TrimEnd(TrimStart(s)) }

  /** A run of decimal digits in which single underscores may separate two
      digits, the form `int()` accepts after an optional sign. */
  predicate IsDigitGroup(s: string)
  {
    && |s| > 0 && IsDigit(s[0]) && IsDigit(s[|s| - 1])
    && forall i :: 0 <= i < |s| ==> IsDigit(s[i]) || SeparatesDigits(s, i)
  }

  /** Position i of s holds an underscore with a digit on each side. */
  predicate SeparatesDigits(s: string, i: int)
  {
    0 < i < |s| - 1 && s[i] == '_' && IsDigit(s[i - 1]) && IsDigit(s[i + 1])
  }

  lemma DigitGroupChars(s: string)
    requires IsDigitGroup(s)
    ensures forall i :: 0 <= i < |s| ==> IsDigit(s[i]) || s[i] == '_'
  {
  }

  /** The value of a run of digits, underscores skipped. */
  function GroupValue(s: string): nat
    requires forall i :: 0 <= i < |s| ==> IsDigit(s[i]) || s[i] == '_'
  {
    if s == [] then 0
    else if s[|s| - 1] == '_' then GroupValue(s[..|s| - 1])
    else
      assert IsDigit(s[|s| - 1]);
      GroupValue(s[..|s| - 1]) * 10 + (s[|s| - 1] as int - '0' as int)
  }

  /** Python's `int(s)` for base-10 text: `None` stands for the ValueError
      "invalid literal for int() with base 10". */
  function ParseInt(s: string): (r: Option<int>)
    // Blank text, such as the empty field of "1,,3", is rejected.
    ensures Strip(s) == [] ==> r.None?
    // Accepted text is, once stripped, an optional sign and then digits in
    // which an underscore only ever stands alone between two digits.
    ensures r.Some? ==>
      var t := Strip(s);
      && |t| > 0 && IsDigit(t[|t| - 1])
      && (forall i :: 0 <= i < |t| ==>
            IsDigit(t[i]) || SeparatesDigits(t, i) || (i == 0 && (t[i] == '+' || t[i] == '-')))
    // Only a leading minus sign gives a negative value.
    ensures r.Some? && r.value < 0 ==> Strip(s)[0] == '-'
    // Conversely, every such literal is accepted.
    ensures var t := Strip(s);
      IsDigitGroup(t) || (|t| > 0 && (t[0] == '+' || t[0] == '-') && IsDigitGroup(t[1..])) ==> r.Some?
  {
    var t := Strip(s);
    if |t| > 0 && (t[0] == '+' || t[0] == '-') then
      if IsDigitGroup(t[1..]) then
        DigitGroupChars(t[1..]);
        var magnitude: int := GroupValue(t[1..]);
        Some(if t[0] == '-' then -magnitude else magnitude)
      else None
    else if IsDigitGroup(t) then
      DigitGroupChars(t);
      Some(GroupValue(t))
    else None
  }

  function Digit(d: nat): (c: char)
    requires d < 10
    ensures IsDigit(c) && c as int - '0' as int == d
  {
    ('0' as int + d) as char
  }

  /** Python's `str(n)` for a natural number: its decimal digits. */
  function ShowNat(n: nat): (s: string)
    ensures |s| > 0 && forall i :: 0 <= i < |s| ==> IsDigit(s[i])
  {
    if n < 10 then [Digit(n)] else ShowNat(n / 10) + [Digit(n % 10)]
  }

  /** Python's `str(n)`: the digits, after a minus sign when n is negative. */
  function ShowInt(n: int): (s: string)
    ensures |s| > 0 && IsDigit(s[|s| - 1])
    ensures forall i :: 0 <= i < |s| ==> IsDigit(s[i]) || (i == 0 && n < 0 && s[i] == '-')
  {
    if n < 0 then "-" + ShowNat(-n) else ShowNat(n)
  }

  lemma {:induction false} GroupValueOfShowNat(n: nat)
    ensures GroupValue(ShowNat(n)) == n
  {
    var s := ShowNat(n);
    if n >= 10 {
      GroupValueOfShowNat(n / 10);
      assert s[..|s| - 1] == ShowNat(n / 10);
    }
  }

  /** `int(str(n)) == n` for every integer n. */
  lemma ParseOfShow(n: int)
    ensures ParseInt(ShowInt(n)) == Some(n)
  {
    var s := ShowInt(n);
    assert Strip(s) == s;
    if n < 0 {
      assert s[1..] == ShowNat(-n);
      GroupValueOfShowNat(-n);
    } else {
      GroupValueOfShowNat(n);
    }
  }

  /** A digit group has no whitespace to strip. */
  lemma StripDigitGroup(s: string)
    requires IsDigitGroup(s)
    ensures Strip(s) == s
  {
  }

  lemma {:induction false} GroupValueLeadingZero(s: string)
    requires forall i :: 0 <= i < |s| ==> IsDigit(s[i]) || s[i] == '_'
    ensures forall i :: 0 <= i < |"0" + s| ==> IsDigit(("0" + s)[i]) || ("0" + s)[i] == '_'
    ensures GroupValue("0" + s) == GroupValue(s)
  {
    if s != [] {
      var n := |s| - 1;
      GroupValueLeadingZero(s[..n]);
      assert ("0" + s)[..|"0" + s| - 1] == "0" + s[..n];
    }
  }

  lemma {:induction false} GroupValueDropUnderscore(a: string, b: string)
    requires forall i :: 0 <= i < |a| ==> IsDigit(a[i]) || a[i] == '_'
    requires forall i :: 0 <= i < |b| ==> IsDigit(b[i]) || b[i] == '_'
    ensures forall i :: 0 <= i < |a + "_" + b| ==> IsDigit((a + "_" + b)[i]) || (a + "_" + b)[i] == '_'
    ensures forall i :: 0 <= i < |a + b| ==> IsDigit((a + b)[i]) || (a + b)[i] == '_'
    ensures GroupValue(a + "_" + b) == GroupValue(a + b)
  {
    if b == [] {
      assert a + "_" + b == a + "_";
      assert (a + "_")[..|a|] == a;
      assert a + b == a;
    } else {
      var n := |b| - 1;
      GroupValueDropUnderscore(a, b[..n]);
      assert (a + "_" + b)[..|a + "_" + b| - 1] == a + "_" + b[..n];
      assert (a + b)[..|a + b| - 1] == a + b[..n];
    }
  }

  /** `int("+5")` is `int("5")`: a plus sign changes nothing. */
  lemma ParsePlusSign(s: string)
    requires IsDigitGroup(s)
    ensures ParseInt("+" + s) == ParseInt(s)
  {
    StripDigitGroup(s);
    assert ("+" + s)[1..] == s;
  }

  /** `int("-5")` is `-int("5")`. */
  lemma ParseMinusSign(s: string)
    requires IsDigitGroup(s)
    ensures ParseInt(s).Some? && ParseInt("-" + s) == Some(-ParseInt(s).value)
  {
    StripDigitGroup(s);
    assert ("-" + s)[1..] == s;
  }

  /** `int("05")` is `int("5")`: a leading zero changes nothing. */
  lemma ParseLeadingZero(s: string)
    requires IsDigitGroup(s)
    ensures ParseInt("0" + s) == ParseInt(s)
  {
    var z := "0" + s;
    assert IsDigitGroup(z) by {
      forall i | 0 <= i < |z| ensures IsDigit(z[i]) || SeparatesDigits(z, i) {
        if i > 0 && !IsDigit(z[i]) {
          assert SeparatesDigits(s, i - 1);
        }
      }
    }
    StripDigitGroup(s);
    StripDigitGroup(z);
    DigitGroupChars(s);
    GroupValueLeadingZero(s);
  }

  /** `int("1_000")` is `int("1000")`: an underscore between two digits
      changes nothing. */
  lemma ParseUnderscore(a: string, b: string)
    requires IsDigitGroup(a) && IsDigitGroup(b)
    ensures ParseInt(a + "_" + b) == ParseInt(a + b)
  {
    var u, j := a + "_" + b, a + b;
    assert IsDigitGroup(u) by {
      forall i | 0 <= i < |u| ensures IsDigit(u[i]) || SeparatesDigits(u, i) {
        if i < |a| {
          if !IsDigit(u[i]) { assert SeparatesDigits(a, i); }
        } else if i > |a| {
          if !IsDigit(u[i]) { assert SeparatesDigits(b, i - |a| - 1); }
        }
      }
    }
    assert IsDigitGroup(j) by {
      forall i | 0 <= i < |j| ensures IsDigit(j[i]) || SeparatesDigits(j, i) {
        if i < |a| {
          if !IsDigit(j[i]) { assert SeparatesDigits(a, i); }
        } else {
          if !IsDigit(j[i]) { assert SeparatesDigits(b, i - |a|); }
        }
      }
    }
    StripDigitGroup(u);
    StripDigitGroup(j);
    DigitGroupChars(a);
    DigitGroupChars(b);
    GroupValueDropUnderscore(a, b);
  }

  lemma {:induction false} TrimStartAppendSpace(s: string, c: char)
    requires IsSpace(c)
    ensures TrimStart(s + [c]) == if TrimStart(s) == [] then [] else TrimStart(s) + [c]
  {
    if s == [] {
      assert TrimStart([c]) == TrimStart([]);
    } else {
      assert (s + [c])[1..] == s[1..] + [c];
      if IsSpace(s[0]) {
        TrimStartAppendSpace(s[1..], c);
      }
    }
  }

  /** `int()` gives the same answer when whitespace is added before or after
      its argument, so `int(" 2")` is 2. */
  lemma ParseIgnoresSurroundingSpace(s: string, c: char)
    requires IsSpace(c)
    ensures ParseInt([c] + s) == ParseInt(s)
    ensures ParseInt(s + [c]) == ParseInt(s)
  {
    assert ([c] + s)[1..] == s;
    assert Strip([c] + s) == Strip(s);
    TrimStartAppendSpace(s, c);
    var t := TrimStart(s);
    if t != [] {
      assert (t + [c])[..|t + [c]| - 1] == t;
    }
    assert Strip(s + [c]) == Strip(s);
  }

  // ---------------------------------------------------------------------
  // three_ints
  // ---------------------------------------------------------------------

  /** The two ValueErrors `three_ints` can raise. */
  datatype ArgError =
    | FieldCount(found: nat)          // unpacking the split into a, b, c
    | InvalidLiteral(field: string)   // int() of the first field that is not a number

  /** `three_ints(arg)`: split on commas into exactly three fields, parse
      each as an integer in field order, and subtract one from each. */
  function ThreeInts(arg: string): (r: Result<seq<int>, ArgError>)
    // Anything but exactly two commas is a field-count error.
    ensures multiset(arg)[','] != 2 ==> r == Err(FieldCount(multiset(arg)[','] + 1))
    // Success exactly when there are three fields and each parses.
    ensures r.Ok? <==>
      var f := Split(arg, ',');
      |f| == 3 && ParseInt(f[0]).Some? && ParseInt(f[1]).Some? && ParseInt(f[2]).Some?
    // The i-th result is the i-th field's value, made zero-based.
    ensures r.Ok? ==>
      var f := Split(arg, ',');
      |f| == 3 && |r.value| == 3 &&
      forall i :: 0 <= i < 3 ==> ParseInt(f[i]) == Some(r.value[i] + 1)
    // With three fields, the error names the first field that does not parse.
    ensures r.Err? && multiset(arg)[','] == 2 ==>
      var f := Split(arg, ',');
      exists k :: 0 <= k < 3 && r.error == InvalidLiteral(f[k]) && ParseInt(f[k]).None? &&
        forall j :: 0 <= j < k ==> ParseInt(f[j]).Some?
  {
    var fields := Split(arg, ',');
    if |fields| != 3 then Err(FieldCount(|fields|))
    else
      var a, b, c := fields[0], fields[1], fields[2];
      if ParseInt(a).None? then Err(InvalidLiteral(a))
      else if ParseInt(b).None? then Err(InvalidLiteral(b))
      else if ParseInt(c).None? then Err(InvalidLiteral(c))
      else Ok([ParseInt(a).value - 1, ParseInt(b).value - 1, ParseInt(c).value - 1])
  }

  /** The one-based states x + 1, y + 1, z + 1 written as "x+1,y+1,z+1"
      come back as the zero-based [x, y, z]. */
  lemma ThreeIntsOfFormatted(x: int, y: int, z: int)
    ensures ThreeInts(ShowInt(x + 1) + "," + ShowInt(y + 1) + "," + ShowInt(z + 1)) == Ok([x, y, z])
  {
    var a, b, c := ShowInt(x + 1), ShowInt(y + 1), ShowInt(z + 1);
    ParseOfShow(x + 1);
    ParseOfShow(y + 1);
    ParseOfShow(z + 1);
    ThreeFields(a, b, c);
    ThreeIntsOfFields(a + "," + b + "," + c, a, b, c, x, y, z);
  }

  /** A space after each comma, as in "2, 5, 9", is accepted as well. */
  lemma ThreeIntsOfSpaced(x: int, y: int, z: int)
    ensures ThreeInts(ShowInt(x + 1) + ", " + ShowInt(y + 1) + ", " + ShowInt(z + 1)) == Ok([x, y, z])
  {
    var a, b, c := ShowInt(x + 1), ShowInt(y + 1), ShowInt(z + 1);
    var b', c' := " " + b, " " + c;
    var arg := a + ", " + b + ", " + c;
    assert ParseInt(a) == Some(x + 1) by { ParseOfShow(x + 1); }
    assert ParseInt(b') == Some(y + 1) by { ParseOfShow(y + 1); ParseIgnoresSurroundingSpace(b, ' '); }
    assert ParseInt(c') == Some(z + 1) by { ParseOfShow(z + 1); ParseIgnoresSurroundingSpace(c, ' '); }
    SpacedFields(a, b, c);
    ThreeIntsOfFields(arg, a, b', c', x, y, z);
  }

  lemma SpacedFields(a: string, b: string, c: string)
    requires ',' !in a && ',' !in b && ',' !in c
    ensures Split(a + ", " + b + ", " + c, ',') == [a, " " + b, " " + c]
  {
    SpacedText(a, b, c);
    ThreeFields(a, " " + b, " " + c);
  }

  lemma SpacedText(a: string, b: string, c: string)
    ensures a + ", " + b + ", " + c == a + "," + (" " + b) + "," + (" " + c)
  {
    assert ", " == "," + " ";
  }

  lemma ThreeIntsOfFields(arg: string, a: string, b: string, c: string, x: int, y: int, z: int)
    requires Split(arg, ',') == [a, b, c]
    requires ParseInt(a) == Some(x + 1) && ParseInt(b) == Some(y + 1) && ParseInt(c) == Some(z + 1)
    ensures ThreeInts(arg) == Ok([x, y, z])
  {
  }

  /** Three comma-free fields joined by commas split back into those three. */
  lemma ThreeFields(a: string, b: string, c: string)
    requires ',' !in a && ',' !in b && ',' !in c
    ensures Split(a + "," + b + "," + c, ',') == [a, b, c]
  {
    var fields := [a, b, c];
    assert fields[1..] == [b, c];
    assert fields[1..][1..] == [c];
    assert Join([b, c], ',') == b + [','] + c;
    assert Join(fields, ',') == a + [','] + (b + [','] + c);
    assert a + [','] + (b + [','] + c) == a + "," + b + "," + c;
    SplitOfJoin(fields, ',');
  }
}
