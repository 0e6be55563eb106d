/** Post-processing of the extracted table: reading an `HH:MM:SS:FF`
    timestamp cell as minutes, and coercing every column to numbers with an
    all-or-nothing rule. Python's `int()` and `float()` string parsing are
    modelled for ASCII text. */
module Conversion {
  import opened Wrappers
  import opened Cells
  import opened Chars

  /** The ASCII characters `int()` and `float()` skip around a number:
      space, tab, newline, vertical tab, form feed and carriage return.
      The information separators `\x1c` to `\x1f`, which `str.strip`
      would remove, are not among them: the number parsers keep them and
      then refuse the text. */
  predicate IsSpace(c: char)
  {
    c == ' ' || '\t' <= c <= '\r'
  }

  /** The first index of `c` in `s`. */
  function FirstIndex(s: string, c: char): (i: nat)
    requires c in s
    ensures i < |s| && s[i] == c && c !in s[..i]
  {
    if s[0] == c then 0 else 1 + FirstIndex(s[1..], c)
  }

  /** `sep.join(fields)`. */
  function Join(fields: seq<string>, sep: char): string
    requires |fields| >= 1
  {
    if |fields| == 1 then fields[0] else fields[0] + [sep] + Join(fields[1..], sep)
  }

  /** Python's `s.split(sep)`: the pieces between separators, as many as
      there are separators plus one, none of them holding a separator. */
  function Split(s: string, sep: char): (fields: seq<string>)
    ensures |fields| >= 1
    ensures forall i :: 0 <= i < |fields| ==> sep !in fields[i]
    ensures Join(fields, sep) == s
    decreases |s|
  {
    if sep !in s then [s]
    else
      var i := FirstIndex(s, sep);
      var rest := Split(s[i + 1..], sep);
      assert s == s[..i] + [sep] + s[i + 1..];
      [s[..i]] + rest
  }

  /** Splitting a join gives back the pieces, when no piece holds the
      separator. */
  lemma {:induction false} SplitJoin(fields: seq<string>, sep: char)
    requires |fields| >= 1
    requires forall i :: 0 <= i < |fields| ==> sep !in fields[i]
    ensures Split(Join(fields, sep), sep) == fields
    decreases |fields|
  {
    if |fields| > 1 {
      var s := Join(fields, sep);
      var rest := fields[1..];
      assert forall i :: 0 <= i < |rest| ==> rest[i] == fields[i + 1];
      assert s == fields[0] + [sep] + Join(rest, sep);
      assert s[|fields[0]|] == sep;
      assert s[..|fields[0]|] == fields[0];
      assert FirstIndex(s, sep) == |fields[0]|;
      assert s[|fields[0]| + 1..] == Join(rest, sep);
      SplitJoin(rest, sep);
    }
  }

  /** `s.lstrip()` for ASCII whitespace. */
  function StripLeft(s: string): (r: string)
    ensures |r| <= |s|
    ensures forall x :: x in r ==> x in s
    ensures |r| > 0 ==> !IsSpace(r[0])
  {
    if |s| > 0 && IsSpace(s[0]) then StripLeft(s[1..]) else s
  }

  /** `s.rstrip()` for ASCII whitespace. */
  function StripRight(s: string): (r: string)
    ensures forall x :: x in r ==> x in s
    ensures |r| > 0 ==> !IsSpace(r[|r| - 1])
  {
    if |s| > 0 && IsSpace(s[|s| - 1]) then StripRight(s[..|s| - 1]) else s
  }

  /** `s.strip()` for ASCII whitespace. */
  function Strip(s: string): (r: string)
    ensures forall x :: x in r ==> x in s
  {
    StripRight(StripLeft(s))
  }

  /** Leading whitespace removal leaves a suffix of `s`, and all it
      removed is whitespace. */
  lemma {:induction false} StripLeftIsSuffix(s: string)
    ensures var r := StripLeft(s);
      r == s[|s| - |r|..] && forall i :: 0 <= i < |s| - |r| ==> IsSpace(s[i])
    decreases |s|
  {
    if |s| > 0 && IsSpace(s[0]) {
      StripLeftIsSuffix(s[1..]);
    }
  }

  /** Trailing whitespace removal leaves a prefix of `s`, and all it
      removed is whitespace. */
  lemma {:induction false} StripRightIsPrefix(s: string)
    ensures var r := StripRight(s);
      |r| <= |s| && r == s[..|r|] && forall i :: |r| <= i < |s| ==> IsSpace(s[i])
    decreases |s|
  {
    if |s| > 0 && IsSpace(s[|s| - 1]) {
      StripRightIsPrefix(s[..|s| - 1]);
    }
  }

  /** `strip` keeps every non-space character and leaves no whitespace at
      either end. */
  lemma StripTrims(s: string)
    ensures var r := Strip(s);
      (|r| > 0 ==> !IsSpace(r[0]) && !IsSpace(r[|r| - 1]))
      && forall i :: 0 <= i < |s| && !IsSpace(s[i]) ==> s[i] in r
  {
    var t := StripLeft(s);
    var r := StripRight(t);
    StripLeftIsSuffix(s);
    StripRightIsPrefix(t);
    assert |r| > 0 ==> r[0] == t[0];
    assert forall i :: 0 <= i < |s| && !IsSpace(s[i]) ==> s[i] == t[i - (|s| - |t|)];
    assert forall j :: 0 <= j < |t| && !IsSpace(t[j]) ==> t[j] == r[j];
  }

  /** Digits in which single underscores may separate two digits, the
      grouping Python accepts inside a number literal:
      `digit ('_'? digit)*`. */
  predicate ValidDigits(b: string)
    decreases |b|
  {
    |b| > 0 && IsDigit(b[|b| - 1])
    && (|b| == 1
        || (if b[|b| - 2] == '_' then |b| >= 3 && ValidDigits(b[..|b| - 2])
            else ValidDigits(b[..|b| - 1])))
  }

  /** The decimal value of the digits of `b`, underscores skipped. */
  function DigitsValue(b: string): nat
  {
    if |b| == 0 then 0
    else if IsDigit(b[|b| - 1]) then DigitsValue(b[..|b| - 1]) * 10 + (b[|b| - 1] as int - '0' as int)
    else DigitsValue(b[..|b| - 1])
  }

  /** How many digits `b` holds. */
  function DigitCount(b: string): nat
  {
    if |b| == 0 then 0
    else DigitCount(b[..|b| - 1]) + (if IsDigit(b[|b| - 1]) then 1 else 0)
  }

  /** Python's `int(s)` in base 10: surrounding whitespace, an optional
      sign, then grouped digits; anything else raises, which is `None`. */
  function ParseInt(s: string): (r: Option<int>)
    ensures r.Some? && '-' !in s ==> r.value >= 0
  {
    var t := Strip(s);
    if |t| > 0 && (t[0] == '+' || t[0] == '-') then
      var body := t[1..];
      if !ValidDigits(body) then None
      else if t[0] == '-' then Some(0 - DigitsValue(body) as int)
      else Some(DigitsValue(body))
    else if ValidDigits(t) then Some(DigitsValue(t))
    else None
  }

  /** The grouping `digit ('_'? digit)*` stated position by position:
      every character is a digit, or an underscore with a digit on both
      sides. */
  predicate Grouped(b: string)
  {
    |b| > 0
    && forall i {:trigger b[i]} :: 0 <= i < |b| ==>
         IsDigit(b[i]) || (b[i] == '_' && 0 < i < |b| - 1 && IsDigit(b[i - 1]) && IsDigit(b[i + 1]))
  }

  /** The grouping the parsers check, read from the right, is exactly the
      position-by-position one. */
  lemma {:induction false} ValidDigitsIff(b: string)
    ensures ValidDigits(b) <==> Grouped(b)
    decreases |b|
  {
    var n := |b|;
    if n >= 2 {
      var k := if b[n - 2] == '_' then n - 2 else n - 1;
      if k > 0 {
        var p := b[..k];
        ValidDigitsIff(p);
        if Grouped(b) {
          assert IsDigit(b[k - 1]) by {
            if k == n - 2 { assert b[n - 2] == '_' && 0 < n - 2; }
          }
          GroupedPrefix(b, k);
        }
        if Grouped(p) && IsDigit(b[n - 1]) {
          GroupedExtend(b, k);
        }
      } else {
        assert !Grouped(b) by { assert b[0] == '_' && !IsDigit(b[0]); }
      }
    }
  }

  /** Cutting a grouped string just after one of its digits leaves it
      grouped. */
  lemma GroupedPrefix(b: string, k: nat)
    requires Grouped(b) && 0 < k <= |b| && IsDigit(b[k - 1])
    ensures Grouped(b[..k])
  {
    var p := b[..k];
    forall i | 0 <= i < k
      ensures IsDigit(p[i]) || (p[i] == '_' && 0 < i < k - 1 && IsDigit(p[i - 1]) && IsDigit(p[i + 1]))
    {
      assert p[i] == b[i];
      if i < k - 1 { assert p[i + 1] == b[i + 1]; }
      if 0 < i { assert p[i - 1] == b[i - 1]; }
    }
  }

  /** A grouped prefix followed by a digit, with at most one underscore
      between, is grouped. */
  lemma GroupedExtend(b: string, k: nat)
    requires 0 < k && (k == |b| - 1 || (k == |b| - 2 && b[k] == '_'))
    requires Grouped(b[..k]) && IsDigit(b[|b| - 1])
    ensures Grouped(b)
  {
    var p := b[..k];
    assert IsDigit(p[k - 1]);
    forall i | 0 <= i < |b|
      ensures IsDigit(b[i]) || (b[i] == '_' && 0 < i < |b| - 1 && IsDigit(b[i - 1]) && IsDigit(b[i + 1]))
    {
      if i < k {
        assert b[i] == p[i];
        if i < k - 1 { assert b[i + 1] == p[i + 1]; }
        if 0 < i { assert b[i - 1] == p[i - 1]; }
      }
    }
  }

  /** Which strings `int()` accepts, and what it reads: after stripping,
      grouped digits, possibly after one sign; the value is the digits'
      decimal value, negated after a minus. A letter, a second sign, a
      stray or doubled underscore, or inner whitespace all make it raise. */
  lemma ParseIntAccepts(s: string)
    ensures var t := Strip(s);
      ParseInt(s).Some? <==> |t| > 0 && (Grouped(t) || (t[0] in "+-" && Grouped(t[1..])))
    ensures var t := Strip(s);
      ParseInt(s).Some? && |t| > 0 && t[0] == '-' ==> ParseInt(s).value == -(DigitsValue(t[1..]) as int)
    ensures var t := Strip(s);
      ParseInt(s).Some? && |t| > 0 && t[0] != '-' ==> ParseInt(s).value == DigitsValue(t) as int
  {
    var t := Strip(s);
    ValidDigitsIff(t);
    if |t| > 0 {
      ValidDigitsIff(t[1..]);
      if t[0] == '+' && ValidDigits(t[1..]) {
        DigitsValueSkipsPlus(t);
      }
    }
  }

  /** A leading `+` adds nothing to the digits' value. */
  lemma {:induction false} DigitsValueSkipsPlus(t: string)
    requires |t| > 0 && t[0] == '+'
    ensures DigitsValue(t) == DigitsValue(t[1..])
    decreases |t|
  {
    if |t| > 1 {
      DigitsValueSkipsPlus(t[..|t| - 1]);
      assert t[..|t| - 1][1..] == t[1..][..|t[1..]| - 1];
    }
  }

  /** `int()` refuses a letter after the digits, a doubled sign, and a
      leading information separator, which it does not count as
      whitespace. */
  lemma ParseIntRefuses()
    ensures ParseInt("1a") == None
    ensures ParseInt("--5") == None
    ensures ParseInt("\U{1c}5") == None
  {
    assert Strip("1a") == "1a";
    assert Strip("--5") == "--5";
    assert Strip("\U{1c}5") == "\U{1c}5";
  }

  /** A plain unsigned run of ASCII digits. */
  predicate IsDigitString(s: string)
  {
    |s| > 0 && forall i :: 0 <= i < |s| ==> IsDigit(s[i])
  }

  /** A plain run of digits parses to its decimal value. */
  lemma ParseDigitString(s: string)
    requires IsDigitString(s)
    ensures ParseInt(s) == Some(DigitsValue(s))
  {
    StripLeftNoSpace(s);
    StripRightNoSpace(s);
    DigitStringIsValid(s);
  }

  lemma {:induction false} DigitStringIsValid(s: string)
    requires IsDigitString(s)
    ensures ValidDigits(s)
    decreases |s|
  {
    if |s| > 1 {
      DigitStringIsValid(s[..|s| - 1]);
    }
  }

  lemma StripLeftNoSpace(s: string)
    requires |s| > 0 && !IsSpace(s[0])
    ensures StripLeft(s) == s
  {
  }

  lemma StripRightNoSpace(s: string)
    requires |s| > 0 && !IsSpace(s[|s| - 1])
    ensures StripRight(s) == s
  {
  }

  /** `time_string_to_minutes`: a string of four `:`-separated integers
      `hours:minutes:seconds:frames` becomes
      `(hours * 3600 + minutes * 60 + seconds) / 60`; the frames field must
      parse but is otherwise ignored. Anything that is not a string, does
      not have exactly four fields, or has a field that is not an integer
      gives `None`. */
  function TimeStringToMinutes(c: Cell): (r: Option<real>)
    ensures r.Some? ==> c.Str?
  {
    if c.Str? then MinutesOfFields(Split(c.s, ':')) else None
  }

  /** The minutes that four parsed fields denote, or `None` when there are
      not four fields or one does not parse. */
  function MinutesOfFields(f: seq<string>): (r: Option<real>)
    ensures r.Some? <==> |f| == 4 && forall i :: 0 <= i < 4 ==> ParseInt(f[i]).Some?
  {
    if |f| != 4 then None
    else
      var h := ParseInt(f[0]);
      var m := ParseInt(f[1]);
      var sec := ParseInt(f[2]);
      var frames := ParseInt(f[3]);
      if h.None? || m.None? || sec.None? || frames.None? then None
      else Some(Minutes(h.value, m.value, sec.value))
  }

  /** Hours, minutes and seconds as minutes: `(h*3600 + m*60 + s) / 60`. */
  function Minutes(h: int, m: int, s: int): real
  {
    (h * 3600 + m * 60 + s) as real / 60.0
  }

  /** A time string has a value exactly when it is a string that splits
      into four fields which all parse as integers. */
  lemma TimeStringDefinedIff(c: Cell)
    ensures TimeStringToMinutes(c).Some? <==>
      (c.Str? && |Split(c.s, ':')| == 4
       && forall i :: 0 <= i < 4 ==> ParseInt(Split(c.s, ':')[i]).Some?)
  {
  }

  /** A character of a piece is a character of the joined string. */
  lemma {:induction false} InJoin(fields: seq<string>, sep: char, i: nat, x: char)
    requires |fields| >= 1 && i < |fields| && x in fields[i]
    ensures x in Join(fields, sep)
    decreases |fields|
  {
    if |fields| > 1 {
      if i > 0 {
        InJoin(fields[1..], sep, i - 1, x);
      }
    }
  }

  /** Round trip: four runs of digits joined by colons read back as the
      minutes they denote. */
  lemma TimeStringRoundTrip(h: string, m: string, s: string, f: string)
    requires IsDigitString(h) && IsDigitString(m) && IsDigitString(s) && IsDigitString(f)
    ensures TimeStringToMinutes(Str(Join([h, m, s, f], ':')))
      == Some(Minutes(DigitsValue(h), DigitsValue(m), DigitsValue(s)))
  {
    var fields := [h, m, s, f];
    forall i | 0 <= i < 4
      ensures ':' !in fields[i]
    {
      var x := fields[i];
      assert forall j :: 0 <= j < |x| ==> x[j] != ':';
    }
    SplitJoin(fields, ':');
    DigitFieldsMinutes(h, m, s, f);
  }

  lemma DigitFieldsMinutes(h: string, m: string, s: string, f: string)
    requires IsDigitString(h) && IsDigitString(m) && IsDigitString(s) && IsDigitString(f)
    ensures MinutesOfFields([h, m, s, f])
      == Some(Minutes(DigitsValue(h), DigitsValue(m), DigitsValue(s)))
  {
    ParseDigitString(h);
    ParseDigitString(m);
    ParseDigitString(s);
    ParseDigitString(f);
    var fs := [h, m, s, f];
    assert fs[0] == h && fs[1] == m && fs[2] == s && fs[3] == f;
  }

  /** The frames field has to be an integer, but which integer does not
      matter. */
  lemma FramesIgnored(a: string, b: string)
    requires var fa := Split(a, ':'); var fb := Split(b, ':');
      |fa| == 4 && |fb| == 4 && fa[..3] == fb[..3]
      && ParseInt(fa[3]).Some? && ParseInt(fb[3]).Some?
    ensures TimeStringToMinutes(Str(a)) == TimeStringToMinutes(Str(b))
  {
    var fa := Split(a, ':');
    var fb := Split(b, ':');
    assert fa[0] == fa[..3][0] && fa[1] == fa[..3][1] && fa[2] == fa[..3][2];
    FieldsFramesIgnored(fa, fb);
  }

  lemma FieldsFramesIgnored(fa: seq<string>, fb: seq<string>)
    requires |fa| == 4 && |fb| == 4 && fa[..3] == fb[..3]
    requires ParseInt(fa[3]).Some? && ParseInt(fb[3]).Some?
    ensures MinutesOfFields(fa) == MinutesOfFields(fb)
  {
    assert fa[0] == fa[..3][0] && fa[1] == fa[..3][1] && fa[2] == fa[..3][2];
  }

  /** Without a minus sign every field is non-negative, and so is the
      result. */
  lemma UnsignedIsNonNegative(s: string)
    requires '-' !in s
    requires TimeStringToMinutes(Str(s)).Some?
    ensures TimeStringToMinutes(Str(s)).value >= 0.0
  {
    var f := Split(s, ':');
    assert ParseInt(f[0]).Some? && ParseInt(f[1]).Some? && ParseInt(f[2]).Some?;
    forall i | 0 <= i < 3
      ensures '-' !in f[i]
    {
      if '-' in f[i] {
        InJoin(f, ':', i, '-');
      }
    }
  }

  /** The worked examples: 1 h 30 min is 90 minutes, 1 min 30 s is 1.5. */
  lemma TimeStringExamples()
    ensures TimeStringToMinutes(Str("01:30:00:12")) == Some(90.0)
    ensures TimeStringToMinutes(Str("00:01:30:00")) == Some(1.5)
  {
    HourAndHalf();
    MinuteAndHalf();
  }

  lemma HourAndHalf()
    ensures TimeStringToMinutes(Str("01:30:00:12")) == Some(90.0)
  {
    DigitPairs();
    JoinExamples();
    TimeStringRoundTrip("01", "30", "00", "12");
    assert Minutes(1, 30, 0) == 90.0;
  }

  lemma MinuteAndHalf()
    ensures TimeStringToMinutes(Str("00:01:30:00")) == Some(1.5)
  {
    DigitPairs();
    JoinExamples();
    TimeStringRoundTrip("00", "01", "30", "00");
    assert Minutes(0, 1, 30) == 1.5;
  }

  lemma JoinExamples()
    ensures Join(["01", "30", "00", "12"], ':') == "01:30:00:12"
    ensures Join(["00", "01", "30", "00"], ':') == "00:01:30:00"
  {
  }

  lemma DigitPairs()
    ensures DigitsValue("00") == 0 && DigitsValue("01") == 1
    ensures DigitsValue("12") == 12 && DigitsValue("30") == 30
    ensures IsDigitString("00") && IsDigitString("01") && IsDigitString("12") && IsDigitString("30")
  {
  }

  /** Three fields, a field that is not an integer, or a number instead of
      a string: no value, and nothing raised. */
  lemma MalformedTimeStrings()
    ensures TimeStringToMinutes(Str("01:30:00")) == None
    ensures TimeStringToMinutes(Str("01:3O:00:00")) == None
    ensures TimeStringToMinutes(Num(90.0)) == None
    ensures TimeStringToMinutes(Absent) == None
  {
    ThreeFields();
    LetterField();
  }

  lemma ThreeFields()
    ensures TimeStringToMinutes(Str("01:30:00")) == None
  {
    assert Join(["01", "30", "00"], ':') == "01:30:00";
    SplitJoin(["01", "30", "00"], ':');
  }

  lemma LetterField()
    ensures TimeStringToMinutes(Str("01:3O:00:00")) == None
  {
    assert Join(["01", "3O", "00", "00"], ':') == "01:3O:00:00";
    SplitJoin(["01", "3O", "00", "00"], ':');
    NotAnInteger();
  }

  lemma NotAnInteger()
    ensures ParseInt("3O") == None
  {
    assert Strip("3O") == "3O";
  }

  /** An information separator in front of a number is not whitespace to
      the parsers: the field, and so the whole time string, is refused,
      and so is the same text as a float. */
  lemma SeparatorRefused()
    ensures TimeStringToMinutes(Str("\U{1c}01:30:00:12")) == None
    ensures ParseFloat("\U{1c}5") == None
  {
    SeparatorField();
    SeparatorFloat();
  }

  lemma SeparatorField()
    ensures TimeStringToMinutes(Str("\U{1c}01:30:00:12")) == None
  {
    assert Join(["\U{1c}01", "30", "00", "12"], ':') == "\U{1c}01:30:00:12";
    var f := ["\U{1c}01", "30", "00", "12"];
    SplitJoin(f, ':');
    SeparatorInt();
    assert ParseInt(f[0]).None?;
  }

  lemma SeparatorInt()
    ensures ParseInt("\U{1c}01") == None
  {
    var t := "\U{1c}01";
    assert Strip(t) == t;
    ValidDigitsIff(t);
    assert !IsDigit(t[0]);
  }

  lemma SeparatorFloat()
    ensures ParseFloat("\U{1c}5") == None
  {
    assert Strip("\U{1c}5") == "\U{1c}5";
  }

  /** A named column of the table. */
  datatype Column = Column(name: string, cells: seq<Cell>)

  /** The extracted rows laid out as columns, in the given column order;
      a row that never wrote a column holds an absent cell there. */
  function ToColumns(rows: seq<Row>, names: seq<string>): (frame: seq<Column>)
    ensures |frame| == |names|
    ensures forall i :: 0 <= i < |frame| ==> frame[i].name == names[i] && |frame[i].cells| == |rows|
    ensures forall i, k :: 0 <= i < |frame| && 0 <= k < |rows| ==> frame[i].cells[k] == Get(rows[k], names[i])
  {
    seq(|names|, i requires 0 <= i < |names| =>
      Column(names[i], seq(|rows|, k requires 0 <= k < |rows| => Get(rows[k], names[i]))))
  }

  function Pow10(n: nat): (p: real)
    ensures p >= 1.0
  {
    if n == 0 then 1.0 else 10.0 * Pow10(n - 1)
  }

  /** The value of an unsigned decimal `intPart.frac`, either part possibly
      empty. */
  function DecimalValue(intPart: string, frac: string): (v: real)
    ensures v >= DigitsValue(intPart) as real
  {
    QuotientNonNegative(DigitsValue(frac) as real, Pow10(DigitCount(frac)));
    DigitsValue(intPart) as real + DigitsValue(frac) as real / Pow10(DigitCount(frac))
  }

  lemma QuotientNonNegative(x: real, p: real)
    requires x >= 0.0 && p > 0.0
    ensures x / p >= 0.0
  {
  }

  /** An unsigned decimal: grouped digits with at most one point and at
      least one digit, as in `12`, `12.5`, `12.` or `.5`. */
  function ParseDecimal(body: string): (r: Option<real>)
    ensures r.Some? ==> r.value >= 0.0
  {
    if '.' in body then
      var i := FirstIndex(body, '.');
      var intPart := body[..i];
      var frac := body[i + 1..];
      if (intPart == [] || ValidDigits(intPart)) && (frac == [] || ValidDigits(frac))
         && !(intPart == [] && frac == [])
      then Some(DecimalValue(intPart, frac))
      else None
    else if ValidDigits(body) then Some(DigitsValue(body) as real)
    else None
  }

  /** Python's `float(s)` on decimal text: surrounding whitespace, an
      optional sign, then an unsigned decimal; anything else raises, which
      is `None`. */
  function ParseFloat(s: string): (r: Option<real>)
    ensures r.Some? && '-' !in s ==> r.value >= 0.0
  {
    var t := Strip(s);
    if |t| > 0 && (t[0] == '+' || t[0] == '-') then
      var d := ParseDecimal(t[1..]);
      if d.None? then None
      else if t[0] == '-' then Some(-d.value)
      else d
    else ParseDecimal(t)
  }

  /** `u[..i]` and `u[i + 1..]` are the two sides of a decimal point at
      `i`: each empty or grouped digits, and not both empty. */
  predicate PointSplit(u: string, i: nat)
    requires i < |u|
  {
    (u[..i] == [] || Grouped(u[..i])) && (u[i + 1..] == [] || Grouped(u[i + 1..]))
    && !(u[..i] == [] && u[i + 1..] == [])
  }

  /** The unsigned decimals `float()` reads, stated independently of the
      parser: grouped digits, or a single point with grouped digits on
      either side and at least one digit in all. */
  predicate DecimalText(u: string)
  {
    Grouped(u) || exists i :: 0 <= i < |u| && u[i] == '.' && PointSplit(u, i)
  }

  /** Grouped digits hold no point. */
  lemma GroupedNoPoint(b: string)
    requires Grouped(b)
    ensures '.' !in b
  {
    forall i | 0 <= i < |b|
      ensures b[i] != '.'
    {
    }
  }

  /** Which bodies `ParseDecimal` accepts, and their values: grouped
      digits read as an integer, and a split at the point read as
      `DecimalValue` of its two sides. */
  lemma ParseDecimalAccepts(u: string)
    ensures ParseDecimal(u).Some? <==> DecimalText(u)
    ensures Grouped(u) ==> ParseDecimal(u) == Some(DigitsValue(u) as real)
    ensures forall i :: 0 <= i < |u| && u[i] == '.' && PointSplit(u, i) ==>
      ParseDecimal(u) == Some(DecimalValue(u[..i], u[i + 1..]))
  {
    if '.' in u {
      ParseDecimalAtPoint(u);
      assert !Grouped(u) by { if Grouped(u) { GroupedNoPoint(u); } }
      forall i | 0 <= i < |u| && u[i] == '.' && PointSplit(u, i)
        ensures i == FirstIndex(u, '.')
      {
        PointIsFirst(u, i);
      }
    } else {
      ValidDigitsIff(u);
      forall i | 0 <= i < |u|
        ensures u[i] != '.'
      {
      }
    }
  }

  /** With a point in `u`, `ParseDecimal` reads the split at the first
      one. */
  lemma ParseDecimalAtPoint(u: string)
    requires '.' in u
    ensures var j := FirstIndex(u, '.');
      ParseDecimal(u) == if PointSplit(u, j) then Some(DecimalValue(u[..j], u[j + 1..])) else None
  {
    var j := FirstIndex(u, '.');
    ValidDigitsIff(u[..j]);
    ValidDigitsIff(u[j + 1..]);
  }

  /** A point with grouped digits before it is the first point. */
  lemma PointIsFirst(u: string, i: nat)
    requires i < |u| && u[i] == '.' && PointSplit(u, i)
    ensures '.' in u && FirstIndex(u, '.') == i
  {
    assert u[i] in u;
    if i > 0 {
      GroupedNoPoint(u[..i]);
      assert forall k :: 0 <= k < i ==> u[k] == u[..i][k];
    }
    FirstIndexLeast(u, '.', i);
  }

  /** No occurrence of `c` comes before the first. */
  lemma {:induction false} FirstIndexLeast(s: string, c: char, i: nat)
    requires i < |s| && s[i] == c
    ensures FirstIndex(s, c) <= i
  {
    assert s[i] in s;
    if s[0] != c {
      assert s[1..][i - 1] == c;
      FirstIndexLeast(s[1..], c, i - 1);
    }
  }

  /** Which strings `float()` accepts, and what it reads: after stripping,
      an unsigned decimal, possibly after one sign; the value is the
      decimal's, negated after a minus. */
  lemma ParseFloatAccepts(s: string)
    ensures var t := Strip(s);
      ParseFloat(s).Some? <==> |t| > 0 && (DecimalText(t) || (t[0] in "+-" && DecimalText(t[1..])))
    ensures var t := Strip(s);
      ParseFloat(s).Some? && |t| > 0 && t[0] == '-' ==> ParseFloat(s).value == -ParseDecimal(t[1..]).value
    ensures var t := Strip(s);
      ParseFloat(s).Some? && |t| > 0 && t[0] == '+' ==> ParseFloat(s) == ParseDecimal(t[1..])
    ensures var t := Strip(s);
      |t| > 0 && t[0] !in "+-" ==> ParseFloat(s) == ParseDecimal(t)
  {
    var t := Strip(s);
    ParseDecimalAccepts(t);
    if |t| > 0 {
      ParseDecimalAccepts(t[1..]);
      if t[0] in "+-" {
        SignedIsNotDecimal(t);
      }
    }
  }

  /** A sign is neither a digit nor a point, so signed text is not an
      unsigned decimal. */
  lemma SignedIsNotDecimal(t: string)
    requires |t| > 0 && t[0] in "+-"
    ensures !DecimalText(t)
  {
    assert !Grouped(t) by { assert !IsDigit(t[0]) && t[0] != '_'; }
    forall i | 0 < i < |t| && t[i] == '.'
      ensures !PointSplit(t, i)
    {
      assert t[..i][0] == t[0];
    }
  }

  /** `float()` reads `-1_0.5` as -10.5 and refuses `1.2.3` and a lone
      point. */
  lemma ParseFloatExamples()
    ensures ParseFloat(" -1_0.5") == Some(-10.5)
    ensures ParseFloat("1.2.3") == None
    ensures ParseFloat(".") == None
  {
    SignedGroupedFloat();
    TwoPointsRefused();
    LonePointRefused();
  }

  lemma LonePointRefused()
    ensures ParseFloat(".") == None
  {
    assert Strip(".") == ".";
  }

  lemma SignedGroupedFloat()
    ensures ParseFloat(" -1_0.5") == Some(-10.5)
  {
    assert Strip(" -1_0.5") == "-1_0.5";
    assert "-1_0.5"[1..] == "1_0.5";
    GroupedDecimal();
  }

  lemma GroupedDecimal()
    ensures ParseDecimal("1_0.5") == Some(10.5)
  {
    var u := "1_0.5";
    assert u[..3] == "1_0" && u[4..] == "5";
    assert PointSplit(u, 3) by {
      assert Grouped("1_0") && Grouped("5");
    }
    assert DecimalValue("1_0", "5") == 10.5 by {
      assert "1_0"[..2] == "1_" && "1_"[..1] == "1" && "1"[..0] == "";
      assert DigitsValue("1_0") == 10;
      assert DigitCount("5") == 1 && DigitsValue("5") == 5 && Pow10(1) == 10.0;
    }
    ParseDecimalAccepts(u);
  }

  lemma TwoPointsRefused()
    ensures ParseFloat("1.2.3") == None
  {
    assert Strip("1.2.3") == "1.2.3";
    assert FirstIndex("1.2.3", '.') == 1;
    assert "1.2.3"[2..] == "2.3";
  }

  /** A run of digits counts all of its characters. */
  lemma {:induction false} DigitCountOfDigits(s: string)
    requires IsDigitString(s)
    ensures DigitCount(s) == |s|
    decreases |s|
  {
    if |s| > 1 {
      DigitCountOfDigits(s[..|s| - 1]);
    }
  }

  /** `float` of a plain run of digits is its decimal value. */
  lemma FloatOfDigits(a: string)
    requires IsDigitString(a)
    ensures ParseFloat(a) == Some(DigitsValue(a) as real)
  {
    StripLeftNoSpace(a);
    StripRightNoSpace(a);
    DigitStringIsValid(a);
    assert '.' !in a;
  }

  /** `float` of `a.b`, for digit runs `a` and `b`, is the decimal value
      of the two groups, which `DecimalValueOfDigits` spells out as
      `a + b / 10^|b|`. */
  lemma FloatOfDecimal(a: string, b: string)
    requires IsDigitString(a) && IsDigitString(b)
    ensures ParseFloat(a + "." + b) == Some(DecimalValue(a, b))
  {
    StartsWithDigit(a, b);
    EndsInDigit(a, b);
    UnsignedDecimal(a, b);
    FloatUnsigned(a + "." + b);
  }

  lemma StartsWithDigit(a: string, b: string)
    requires IsDigitString(a)
    ensures var s := a + "." + b; |s| > 0 && IsDigit(s[0])
  {
    var s := a + "." + b;
    assert s[0] == a[0];
  }

  lemma EndsInDigit(a: string, b: string)
    requires IsDigitString(b)
    ensures var s := a + "." + b; |s| > 0 && !IsSpace(s[|s| - 1])
  {
    var s := a + "." + b;
    assert s[|s| - 1] == b[|b| - 1];
  }

  /** Text with no whitespace at either end and no sign is read as an
      unsigned decimal. */
  lemma FloatUnsigned(t: string)
    requires |t| > 0 && !IsSpace(t[0]) && !IsSpace(t[|t| - 1])
    requires t[0] != '+' && t[0] != '-'
    ensures ParseFloat(t) == ParseDecimal(t)
  {
    StripLeftNoSpace(t);
    StripRightNoSpace(t);
  }

  /** A leading minus sign negates the unsigned reading of the rest, and
      fails exactly when that reading does. */
  lemma FloatNegated(body: string)
    requires |body| > 0 && !IsSpace(body[|body| - 1])
    ensures var d := ParseDecimal(body);
      ParseFloat("-" + body) == if d.None? then None else Some(-d.value)
  {
    var n := "-" + body;
    assert n[0] == '-' && n[|n| - 1] == body[|body| - 1] && n[1..] == body;
    StripLeftNoSpace(n);
    StripRightNoSpace(n);
  }

  /** A leading plus sign changes nothing in the unsigned reading of the
      rest. */
  lemma FloatPlus(body: string)
    requires |body| > 0 && !IsSpace(body[|body| - 1])
    ensures ParseFloat("+" + body) == ParseDecimal(body)
  {
    var n := "+" + body;
    assert n[0] == '+' && n[|n| - 1] == body[|body| - 1] && n[1..] == body;
    StripLeftNoSpace(n);
    StripRightNoSpace(n);
  }

  /** An unsigned `a.b` of digit groups is read as those two groups. */
  lemma UnsignedDecimal(a: string, b: string)
    requires IsDigitString(a) && IsDigitString(b)
    ensures ParseDecimal(a + "." + b) == Some(DecimalValue(a, b))
  {
    DigitsHaveNoPoint(a);
    PointSplits(a, b);
    DigitStringIsValid(a);
    DigitStringIsValid(b);
    DecimalOfParts(a + "." + b, |a|);
  }

  /** A fraction of plain digits is scaled by ten to the power of its length. */
  lemma DecimalValueOfDigits(a: string, b: string)
    requires IsDigitString(b)
    ensures DecimalValue(a, b) == DigitsValue(a) as real + DigitsValue(b) as real / Pow10(|b|)
  {
    DigitCountOfDigits(b);
  }

  /** A body whose first point has valid digit groups on both sides is
      read as those two groups. */
  lemma DecimalOfParts(body: string, i: nat)
    requires '.' in body && FirstIndex(body, '.') == i
    requires ValidDigits(body[..i]) && ValidDigits(body[i + 1..])
    ensures ParseDecimal(body) == Some(DecimalValue(body[..i], body[i + 1..]))
  {
  }

  /** The first point of `a.b`, when `a` has none, splits it back into
      `a` and `b`. */
  lemma PointSplits(a: string, b: string)
    requires '.' !in a
    ensures var s := a + "." + b;
      '.' in s && FirstIndex(s, '.') == |a| && s[..|a|] == a && s[|a| + 1..] == b
  {
    var s := a + "." + b;
    assert s[|a|] == '.' && s[..|a|] == a && s[|a| + 1..] == b;
  }

  lemma DigitsHaveNoPoint(a: string)
    requires IsDigitString(a)
    ensures '.' !in a
  {
  }

  /** One cell under `astype(float)`: absent stays absent, numbers stay,
      strings are parsed; `None` is the `ValueError`. */
  function CellToFloat(c: Cell): (r: Option<Cell>)
    ensures r.Some? ==> !r.value.Str?
    ensures c.Absent? ==> r == Some(Absent)
    ensures c.Num? ==> r == Some(c)
  {
    match c
    case Absent => Some(Absent)
    case Num(_) => Some(c)
    case Str(s) =>
      var v := ParseFloat(s);
      if v.None? then None else Some(Num(v.value))
  }

  /** Every cell of the column converts. */
  predicate Coercible(col: Column)
  {
    forall k :: 0 <= k < |col.cells| ==> CellToFloat(col.cells[k]).Some?
  }

  /** No cell of the column is a string. */
  predicate Numeric(col: Column)
  {
    forall k :: 0 <= k < |col.cells| ==> !col.cells[k].Str?
  }

  /** `df[col].astype(float)`, or `df[col] = None` when that raises. */
  function CoerceColumn(col: Column): (r: Column)
    ensures r.name == col.name && |r.cells| == |col.cells|
    ensures Numeric(r)
  {
    if Coercible(col)
    then Column(col.name, seq(|col.cells|, k requires 0 <= k < |col.cells| => CellToFloat(col.cells[k]).value))
    else Column(col.name, seq(|col.cells|, k requires 0 <= k < |col.cells| => Absent))
  }

  /** `convert_to_float`: every column coerced on its own. Names, column
      order and row count are kept, and no string is left anywhere. */
  function ConvertToFloat(frame: seq<Column>): (r: seq<Column>)
    ensures |r| == |frame|
    ensures forall i :: 0 <= i < |r| ==>
      r[i].name == frame[i].name && |r[i].cells| == |frame[i].cells| && Numeric(r[i])
  {
    seq(|frame|, i requires 0 <= i < |frame| => CoerceColumn(frame[i]))
  }

  /** All or nothing: a column either has every cell converted (absent
      cells staying absent, numbers kept, strings parsed), or, when one of
      its strings does not parse, is absent throughout. */
  lemma AllOrNothing(frame: seq<Column>, i: nat)
    requires i < |frame|
    ensures var r := ConvertToFloat(frame)[i]; var col := frame[i];
      (Coercible(col) && forall k :: 0 <= k < |col.cells| ==>
         (col.cells[k].Absent? ==> r.cells[k] == Absent)
         && (col.cells[k].Num? ==> r.cells[k] == col.cells[k])
         && (col.cells[k].Str? ==> r.cells[k] == Num(ParseFloat(col.cells[k].s).value)))
      || (!Coercible(col) && forall k :: 0 <= k < |col.cells| ==> r.cells[k] == Absent)
  {
  }

  /** A column is nulled exactly when one of its strings is not a number. */
  lemma NulledIff(frame: seq<Column>, i: nat)
    requires i < |frame|
    ensures !Coercible(frame[i]) <==>
      exists k :: 0 <= k < |frame[i].cells| && frame[i].cells[k].Str?
        && ParseFloat(frame[i].cells[k].s).None?
  {
    var col := frame[i];
    if !Coercible(col) {
      var k :| 0 <= k < |col.cells| && CellToFloat(col.cells[k]).None?;
      assert col.cells[k].Str?;
    }
  }

  /** Columns are independent: replacing one column changes nothing in
      the result for any other. */
  lemma ColumnsIndependent(frame: seq<Column>, j: nat, c: Column, i: nat)
    requires i < |frame| && j < |frame| && i != j
    ensures ConvertToFloat(frame[j := c])[i] == ConvertToFloat(frame)[i]
  {
  }

  /** Converting twice changes nothing more. */
  lemma ConvertIdempotent(frame: seq<Column>)
    ensures ConvertToFloat(ConvertToFloat(frame)) == ConvertToFloat(frame)
  {
    var once := ConvertToFloat(frame);
    forall i | 0 <= i < |once|
      ensures CoerceColumn(once[i]) == once[i]
    {
      var col := once[i];
      assert Coercible(col);
      assert CoerceColumn(col).cells == col.cells;
    }
  }

  /** A numeric column with a gap converts with the gap kept; a column
      holding a clock reading is nulled. */
  lemma CoerceExamples()
    ensures CoerceColumn(Column("speed", [Str("12.5"), Absent, Str("3")]))
      == Column("speed", [Num(12.5), Absent, Num(3.0)])
    ensures CoerceColumn(Column("clock", [Str("12:34"), Str("5")]))
      == Column("clock", [Absent, Absent])
  {
    SpeedColumn();
    ClockColumn();
  }

  lemma SpeedColumn()
    ensures CoerceColumn(Column("speed", [Str("12.5"), Absent, Str("3")]))
      == Column("speed", [Num(12.5), Absent, Num(3.0)])
  {
    FloatExamples();
    GapKept("speed", "12.5", "3", 12.5, 3.0);
  }

  /** Two parsing strings around a gap convert, with the gap kept. */
  lemma GapKept(name: string, x: string, y: string, u: real, v: real)
    requires ParseFloat(x) == Some(u) && ParseFloat(y) == Some(v)
    ensures CoerceColumn(Column(name, [Str(x), Absent, Str(y)])) == Column(name, [Num(u), Absent, Num(v)])
  {
    var col := Column(name, [Str(x), Absent, Str(y)]);
    assert CellToFloat(col.cells[0]) == Some(Num(u));
    assert CellToFloat(col.cells[2]) == Some(Num(v));
    assert Coercible(col);
    var r := CoerceColumn(col);
    assert r.cells[0] == Num(u) && r.cells[1] == Absent && r.cells[2] == Num(v);
  }

  lemma ClockColumn()
    ensures CoerceColumn(Column("clock", [Str("12:34"), Str("5")]))
      == Column("clock", [Absent, Absent])
  {
    ClockIsNotAFloat();
    var clock := Column("clock", [Str("12:34"), Str("5")]);
    assert CellToFloat(clock.cells[0]).None?;
  }

  lemma FloatExamples()
    ensures ParseFloat("12.5") == Some(12.5)
    ensures ParseFloat("3") == Some(3.0)
    ensures ParseFloat("12:34") == None
  {
    TwelveAndAHalf();
    Three();
    ClockIsNotAFloat();
  }

  lemma TwelveAndAHalf()
    ensures ParseFloat("12.5") == Some(12.5)
  {
    assert Strip("12.5") == "12.5";
    assert FirstIndex("12.5", '.') == 2;
    assert DigitCount("5") == 1;
  }

  lemma Three()
    ensures ParseFloat("3") == Some(3.0)
  {
    assert Strip("3") == "3";
  }

  lemma ClockIsNotAFloat()
    ensures ParseFloat("12:34") == None
  {
    assert Strip("12:34") == "12:34";
    assert !ValidDigits("12:");
    assert !ValidDigits("12:3");
    assert !ValidDigits("12:34");
  }
}
