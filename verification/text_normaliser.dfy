/** The clean-up applied to recognised text before it is stored: for a
    timestamp column, periods become colons and doubled colons are halved;
    then the text is lower-cased, the letters that the recogniser confuses
    with digits are replaced by those digits, commas are dropped, and every
    character other than a digit, `:` or `.` is removed. */
module TextNormaliser {
  import opened Chars

  /** The characters the final filter `[^0-9:.]` keeps. */
  predicate IsKept(c: char)
  {
    IsDigit(c) || c == ':' || c == '.'
  }

  /** Python's `pat in s` on strings. */
  predicate Contains(s: string, pat: string)
    decreases |s|
  {
    if |pat| > |s| then false
    else s[..|pat|] == pat || (|s| > 0 && Contains(s[1..], pat))
  }

  /** `pat` occurs in `s` starting at index `i`. */
  predicate OccursAt(s: string, pat: string, i: int)
  {
    0 <= i <= |s| - |pat| && s[i..i + |pat|] == pat
  }

  /** `Contains` is substring search: it holds exactly when the pattern
      occurs at some index. */
  lemma {:induction false} ContainsIff(s: string, pat: string)
    ensures Contains(s, pat) <==> exists i :: OccursAt(s, pat, i)
    decreases |s|
  {
    if |pat| > |s| {
    } else if s[..|pat|] == pat {
      assert OccursAt(s, pat, 0);
    } else if |s| > 0 {
      ContainsIff(s[1..], pat);
      if Contains(s[1..], pat) {
        var i :| OccursAt(s[1..], pat, i);
        assert s[1..][i..i + |pat|] == s[i + 1..i + 1 + |pat|];
        assert OccursAt(s, pat, i + 1);
      }
      if i :| OccursAt(s, pat, i) {
        assert i != 0;
        assert s[1..][i - 1..i - 1 + |pat|] == s[i..i + |pat|];
        assert OccursAt(s[1..], pat, i - 1);
      }
    }
  }

  /** A column whose name contains `timestamp` gets the punctuation repair. */
  predicate IsTimestampColumn(column: string)
  {
    Contains(column, "timestamp")
  }

  /** `s.replace(from, to)` for single characters. */
  function ReplaceChar(s: string, from: char, to: char): (r: string)
    ensures |r| == |s|
    ensures forall i :: 0 <= i < |r| ==> r[i] == if s[i] == from then to else s[i]
    ensures from !in s ==> r == s
  {
    seq(|s|, i requires 0 <= i < |s| => if s[i] == from then to else s[i])
  }

  /** `s.replace(c, '')`: every `c` removed, everything else kept in order. */
  function DropChar(s: string, c: char): (r: string)
    ensures |r| <= |s|
    ensures forall x :: x in r ==> x in s && x != c
    ensures c !in s ==> r == s
  {
    if |s| == 0 then []
    else (if s[0] == c then [] else [s[0]]) + DropChar(s[1..], c)
  }

  /** `s.replace('::', ':')`: a single left-to-right pass that halves each
      non-overlapping pair of colons; the result is not scanned again. */
  function CollapseColons(s: string): (r: string)
    ensures |r| <= |s|
    ensures forall x :: x in r ==> x in s
    ensures NoDoubleColon(s) ==> r == s
  {
    if |s| < 2 then s
    else if s[0] == ':' && s[1] == ':' then ":" + CollapseColons(s[2..])
    else [s[0]] + CollapseColons(s[1..])
  }

  /** The collapse works piece by piece wherever the cut does not fall
      between two colons: no pair can straddle it. */
  lemma {:induction false} CollapseConcat(a: string, b: string)
    requires |a| == 0 || |b| == 0 || a[|a| - 1] != ':' || b[0] != ':'
    ensures CollapseColons(a + b) == CollapseColons(a) + CollapseColons(b)
    decreases |a|
  {
    var s := a + b;
    if |a| == 0 {
      assert s == b;
    } else if |a| == 1 {
      if |b| > 0 {
        assert s[0] == a[0] && s[1] == b[0] && s[1..] == b;
      } else {
        assert s == a;
      }
    } else if a[0] == ':' && a[1] == ':' {
      assert s[0] == ':' && s[1] == ':' && s[2..] == a[2..] + b;
      CollapseConcat(a[2..], b);
    } else {
      assert s[0] == a[0] && s[1] == a[1] && s[1..] == a[1..] + b;
      CollapseConcat(a[1..], b);
    }
  }

  /** A run of `n` colons. */
  function Colons(n: nat): (r: string)
    ensures |r| == n && forall i :: 0 <= i < n ==> r[i] == ':'
  {
    seq(n, i => ':')
  }

  /** A run of `n` colons becomes a run of `(n + 1) / 2`: every pair is
      halved, and an odd colon at the end stays. */
  lemma {:induction false} CollapseColonRun(n: nat)
    ensures CollapseColons(Colons(n)) == Colons((n + 1) / 2)
    decreases n
  {
    if n >= 2 {
      assert Colons(n)[2..] == Colons(n - 2);
      CollapseColonRun(n - 2);
      assert ":" + Colons((n - 1) / 2) == Colons((n + 1) / 2);
    } else {
      assert Colons(n) == Colons((n + 1) / 2);
    }
  }

  predicate NoDoubleColon(s: string)
  {
    forall i :: 0 <= i < |s| - 1 ==> !(s[i] == ':' && s[i + 1] == ':')
  }

  function LowerChar(c: char): char
  {
    if 'A' <= c <= 'Z' then (c as int + 32) as char else c
  }

  /** `s.lower()` on ASCII letters. */
  function Lower(s: string): (r: string)
    ensures |r| == |s|
    ensures forall i :: 0 <= i < |s| ==> (IsKept(s[i]) ==> r[i] == s[i]) && (IsKept(r[i]) ==> r[i] == s[i])
  {
    seq(|s|, i requires 0 <= i < |s| => LowerChar(s[i]))
  }

  /** `re.sub(r'[^0-9:.]', '', s)`. */
  function KeepNumeric(s: string): (r: string)
    ensures forall i :: 0 <= i < |r| ==> IsKept(r[i])
    ensures forall x :: x in r <==> x in s && IsKept(x)
    ensures (forall i :: 0 <= i < |s| ==> IsKept(s[i])) ==> r == s
  {
    if |s| == 0 then []
    else (if IsKept(s[0]) then [s[0]] else []) + KeepNumeric(s[1..])
  }

  /** The filter works character by character: it keeps a character
      exactly when the pattern does, and filters the two halves of a
      concatenation independently, so kept characters keep their order and
      their number. */
  lemma {:induction false} KeepNumericConcat(a: string, b: string)
    ensures KeepNumeric(a + b) == KeepNumeric(a) + KeepNumeric(b)
    decreases |a|
  {
    if |a| > 0 {
      assert (a + b)[0] == a[0] && (a + b)[1..] == a[1..] + b;
      KeepNumericConcat(a[1..], b);
    } else {
      assert a + b == b;
    }
  }

  lemma KeepNumericChar(c: char)
    ensures KeepNumeric([c]) == if IsKept(c) then [c] else []
  {
  }

  /** Removing a character also works piece by piece, so every other
      character survives, in order. */
  lemma {:induction false} DropCharConcat(a: string, b: string, c: char)
    ensures DropChar(a + b, c) == DropChar(a, c) + DropChar(b, c)
    decreases |a|
  {
    if |a| > 0 {
      assert (a + b)[0] == a[0] && (a + b)[1..] == a[1..] + b;
      DropCharConcat(a[1..], b, c);
    } else {
      assert a + b == b;
    }
  }

  lemma DropCharChar(x: char, c: char)
    ensures DropChar([x], c) == if x == c then [] else [x]
  {
  }

  /** The timestamp punctuation repair. */
  function RepairTimestamp(s: string): (r: string)
    ensures '.' !in r
  {
    CollapseColons(ReplaceChar(s, '.', ':'))
  }

  /** Lower-casing followed by the digit look-alike substitutions
      o->0, i->1, s->5, a->4 and the removal of commas, done one character
      at a time; `SubstituteIsReplaceChain` shows this is the source's chain
      of whole-string replacements. */
  function SubstituteLookalikes(s: string): (r: string)
    ensures |r| <= |s|
    ensures ',' !in r
    ensures forall x :: x in r ==> x !in "oisaOISA"
  {
    DropChar(MapLookalikes(s), ',')
  }

  /** What the substitutions do to one character other than a comma. */
  function LookalikeChar(c: char): char
  {
    var l := LowerChar(c);
    if l == 'o' then '0' else if l == 'i' then '1'
    else if l == 's' then '5' else if l == 'a' then '4' else l
  }

  function MapLookalikes(s: string): (r: string)
    ensures |r| == |s|
  {
    seq(|s|, i requires 0 <= i < |s| => LookalikeChar(s[i]))
  }

  /** The source's chain of whole-string replacements acts character by
      character, since no replacement produces a character that a later one
      rewrites. */
  lemma SubstituteIsReplaceChain(s: string)
    ensures SubstituteLookalikes(s)
      == DropChar(ReplaceChar(ReplaceChar(ReplaceChar(ReplaceChar(Lower(s), 'o', '0'), 'i', '1'), 's', '5'), 'a', '4'), ',')
  {
    var chain := ReplaceChar(ReplaceChar(ReplaceChar(ReplaceChar(Lower(s), 'o', '0'), 'i', '1'), 's', '5'), 'a', '4');
    assert chain == MapLookalikes(s);
  }

  /** The full clean-up of recognised `text` bound for `column`. */
  function Normalise(text: string, column: string): (r: string)
    ensures forall i :: 0 <= i < |r| ==> IsKept(r[i])
  {
    var t := if IsTimestampColumn(column) then RepairTimestamp(text) else text;
    KeepNumeric(SubstituteLookalikes(t))
  }

  /** The substitutions never introduce a period: every character they
      produce is either a digit or was already there. */
  lemma SubstituteAddsNoPeriod(s: string)
    requires '.' !in s
    ensures '.' !in SubstituteLookalikes(s)
  {
    var m := MapLookalikes(s);
    assert '.' !in m by {
      forall i | 0 <= i < |m|
        ensures m[i] != '.'
      {
        assert s[i] != '.';
      }
    }
  }

  /** A timestamp column's output carries no period: periods become colons
      first, and no later step produces one. */
  lemma TimestampHasNoPeriod(text: string, column: string)
    requires IsTimestampColumn(column)
    ensures '.' !in Normalise(text, column)
  {
    SubstituteAddsNoPeriod(RepairTimestamp(text));
  }

  /** Text already made of digits, colons and periods passes through a
      non-timestamp column unchanged. */
  lemma NumericTextUnchanged(text: string, column: string)
    requires !IsTimestampColumn(column)
    requires forall i :: 0 <= i < |text| ==> IsKept(text[i])
    ensures Normalise(text, column) == text
  {
    SubstitutionFixesNumeric(text);
  }

  lemma SubstitutionFixesNumeric(s: string)
    requires forall i :: 0 <= i < |s| ==> IsKept(s[i])
    ensures SubstituteLookalikes(s) == s
  {
    assert MapLookalikes(s) == s;
    assert ',' !in s;
  }

  /** A well-formed timestamp, digits separated by single colons, passes
      through a timestamp column unchanged. */
  lemma CleanTimestampUnchanged(text: string, column: string)
    requires IsTimestampColumn(column)
    requires forall i :: 0 <= i < |text| ==> IsDigit(text[i]) || text[i] == ':'
    requires NoDoubleColon(text)
    ensures Normalise(text, column) == text
  {
    assert ReplaceChar(text, '.', ':') == text;
    SubstitutionFixesNumeric(text);
  }

  /** The colon repair is one pass: three colons become two, not one. */
  lemma CollapseIsOnePass()
    ensures CollapseColons(":::") == "::"
    ensures Normalise(":::", "timestamp") == "::"
  {
    assert CollapseColons(":::") == ":" + CollapseColons(":");
    assert IsTimestampColumn("timestamp") by {
      ContainsIff("timestamp", "timestamp");
      assert OccursAt("timestamp", "timestamp", 0);
    }
    assert ReplaceChar(":::", '.', ':') == ":::";
    SubstitutionFixesNumeric("::");
  }

  /** The clean-up as its three stages, for stating worked examples. */
  lemma Stages(text: string, column: string, repaired: string, substituted: string)
    requires repaired == if IsTimestampColumn(column) then RepairTimestamp(text) else text
    requires SubstituteLookalikes(repaired) == substituted
    ensures Normalise(text, column) == KeepNumeric(substituted)
  {
  }

  /** The worked example: look-alike letters in a timestamp become digits,
      whatever their case. */
  lemma LookalikeExample()
    ensures Normalise("o1:2a:5s", "race_timestamp") == "01:24:55"
    ensures Normalise("O1:2A:5S", "race_timestamp") == "01:24:55"
  {
    RaceTimestampIsTimestamp();
    RepairKeepsExample();
    LookalikeLetters();
    KeepsExample();
    Stages("o1:2a:5s", "race_timestamp", "o1:2a:5s", "01:24:55");
    Stages("O1:2A:5S", "race_timestamp", "O1:2A:5S", "01:24:55");
  }

  lemma RaceTimestampIsTimestamp()
    ensures IsTimestampColumn("race_timestamp")
  {
    ContainsIff("race_timestamp", "timestamp");
    assert OccursAt("race_timestamp", "timestamp", 5);
  }

  lemma RepairKeepsExample()
    ensures RepairTimestamp("o1:2a:5s") == "o1:2a:5s"
    ensures RepairTimestamp("O1:2A:5S") == "O1:2A:5S"
  {
    RepairKeepsLower();
    RepairKeepsUpper();
  }

  lemma RepairKeepsLower()
    ensures RepairTimestamp("o1:2a:5s") == "o1:2a:5s"
  {
    assert NoDoubleColon("o1:2a:5s");
  }

  lemma RepairKeepsUpper()
    ensures RepairTimestamp("O1:2A:5S") == "O1:2A:5S"
  {
    assert NoDoubleColon("O1:2A:5S");
  }

  lemma KeepsExample()
    ensures KeepNumeric("01:24:55") == "01:24:55"
  {
  }

  lemma LookalikeLetters()
    ensures SubstituteLookalikes("o1:2a:5s") == "01:24:55"
    ensures SubstituteLookalikes("O1:2A:5S") == "01:24:55"
  {
    assert MapLookalikes("o1:2a:5s") == "01:24:55";
    assert MapLookalikes("O1:2A:5S") == "01:24:55";
  }

  /** Commas are dropped, and any other non-numeric character filtered. */
  lemma CommaExample()
    ensures Normalise("1,234 m", "altitude") == "1234"
  {
    AltitudeIsNotTimestamp();
    CommaLetters();
    CommaKeeps();
    Stages("1,234 m", "altitude", "1,234 m", "1234 m");
  }

  lemma AltitudeIsNotTimestamp()
    ensures !IsTimestampColumn("altitude")
  {
    ContainsIff("altitude", "timestamp");
  }

  lemma CommaLetters()
    ensures SubstituteLookalikes("1,234 m") == "1234 m"
  {
    CommaMapped();
    CommaDropped();
  }

  lemma CommaMapped()
    ensures MapLookalikes("1,234 m") == "1,234 m"
  {
  }

  lemma CommaDropped()
    ensures DropChar("1,234 m", ',') == "1234 m"
  {
  }

  lemma CommaKeeps()
    ensures KeepNumeric("1234 m") == "1234"
  {
  }
}
