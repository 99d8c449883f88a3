/**
 * The parts of java.lang.String and java.lang.Integer that the MongoDB
 * utilities rely on, stated exactly enough for the host, port and timeout
 * parsing to be modelled: String.split on a single literal character,
 * String.trim, Integer.parseInt, and Integer.toString as the reference
 * inverse of parseInt.
 */
module JavaLang {
  import opened Wrappers

  // ---------------------------------------------------------------------
  // Integer.parseInt / Integer.toString
  // ---------------------------------------------------------------------

  const IntMin: int := -2147483648
  const IntMax: int := 2147483647

  predicate IsInt32(n: int) { IntMin <= n <= IntMax }

  predicate IsDigit(c: char) { '0' <= c <= '9' }

  predicate AllDigits(s: string) { forall i :: 0 <= i < |s| ==> IsDigit(s[i]) }

  function DigitValue(c: char): (d: nat)
    requires IsDigit(c)
    ensures d < 10
  {
    (c as int) - ('0' as int)
  }

  function DigitChar(d: nat): (c: char)
    requires d < 10
    ensures IsDigit(c) && DigitValue(c) == d
  {
    (('0' as int) + d) as char
  }

  /** The value of a run of decimal digits, most significant first. */
  function DigitsValue(s: string): nat
    requires AllDigits(s)
    decreases |s|
  {
    if s == [] then 0 else DigitsValue(s[..|s| - 1]) * 10 + DigitValue(s[|s| - 1])
  }

  /**
   * Integer.parseInt(s): an optional '-' or '+' followed by at least one
   * decimal digit, whose value fits in a 32-bit int; anything else is a
   * NumberFormatException, modelled as None.
   */
  function ParseInt(s: string): (r: Option<int>)
    ensures r.Some? ==> IsInt32(r.value)
    ensures r.Some? ==> s != [] && (IsDigit(s[0]) || s[0] == '-' || s[0] == '+')
  {
    if s == [] then None
    else
      var digits := if s[0] == '-' || s[0] == '+' then s[1..] else s;
      if digits == [] || !AllDigits(digits) then None
      else
        var v: int := if s[0] == '-' then -(DigitsValue(digits) as int) else DigitsValue(digits);
        if IsInt32(v) then Some(v) else None
  }

  /** The shortest decimal numeral of n, most significant digit first. */
  function NatDigits(n: nat): (r: string)
    ensures |r| >= 1 && AllDigits(r)
    decreases n
  {
    if n < 10 then [DigitChar(n)] else NatDigits(n / 10) + [DigitChar(n % 10)]
  }

  /** Integer.toString(n): a '-' sign for negatives, then the decimal digits. */
  function IntToString(n: int): string
  {
    if n < 0 then "-" + NatDigits(-n) else NatDigits(n)
  }

  lemma {:induction false} DigitsValueOfNatDigits(n: nat)
    ensures DigitsValue(NatDigits(n)) == n
    decreases n
  {
    if n >= 10 {
      DigitsValueOfNatDigits(n / 10);
      var s := NatDigits(n);
      assert s[..|s| - 1] == NatDigits(n / 10);
    }
  }

  /** Integer.parseInt inverts Integer.toString on every 32-bit int. */
  lemma ParseIntOfIntToString(n: int)
    requires IsInt32(n)
    ensures ParseInt(IntToString(n)) == Some(n)
  {
    if n < 0 {
      ParseIntOfNegative(n);
    } else {
      ParseIntOfNatDigits(n);
    }
  }

  lemma ParseIntOfNatDigits(n: nat)
    requires n <= IntMax
    ensures ParseInt(NatDigits(n)) == Some(n)
  {
    DigitsValueOfNatDigits(n);
    var s := NatDigits(n);
    assert IsDigit(s[0]);
  }

  lemma ParseIntOfNegative(n: int)
    requires IntMin <= n < 0
    ensures ParseInt("-" + NatDigits(-n)) == Some(n)
  {
    DigitsValueOfNatDigits(-n);
    var s := "-" + NatDigits(-n);
    assert s[0] == '-' && s[1..] == NatDigits(-n);
  }

  /** A numeral produced by Integer.toString has neither blanks nor the given separator. */
  lemma IntToStringChars(n: int, c: char)
    requires c != '-' && !IsDigit(c)
    ensures c !in IntToString(n)
    ensures IntToString(n) != [] && IntToString(n)[0] > ' ' && IntToString(n)[|IntToString(n)| - 1] > ' '
  {
    var s := IntToString(n);
    if n < 0 {
      assert s[1..] == NatDigits(-n);
      assert forall i :: 1 <= i < |s| ==> s[i] == NatDigits(-n)[i - 1];
    }
  }

  // ---------------------------------------------------------------------
  // String.trim
  // ---------------------------------------------------------------------

  /** String.trim removes the characters whose code is at most that of the space. */
  predicate IsTrimmable(c: char) { c <= ' ' }

  function TrimStart(s: string): (r: string)
    ensures |r| <= |s| && r == s[|s| - |r|..]
    ensures forall k :: 0 <= k < |s| - |r| ==> IsTrimmable(s[k])
    ensures r == [] || !IsTrimmable(r[0])
  {
    if s != [] && IsTrimmable(s[0]) then TrimStart(s[1..]) else s
  }

  function TrimEnd(s: string): (r: string)
    ensures |r| <= |s| && r == s[..|r|]
    ensures forall k :: |r| <= k < |s| ==> IsTrimmable(s[k])
    ensures r == [] || !IsTrimmable(r[|r| - 1])
  {
    if s != [] && IsTrimmable(s[|s| - 1]) then TrimEnd(s[..|s| - 1]) else s
  }

  /** String.trim: the longest middle part of s that neither starts nor ends with a blank. */
  function Trim(s: string): string
  {
    TrimEnd(TrimStart(s))
  }

  /** trim leaves alone a string that neither starts nor ends with a blank. */
  lemma TrimOfTrimmed(s: string)
    requires s == [] || (!IsTrimmable(s[0]) && !IsTrimmable(s[|s| - 1]))
    ensures Trim(s) == s
  {
  }

  // ---------------------------------------------------------------------
  // String.split on a single literal character
  // ---------------------------------------------------------------------

  /** Every maximal run of s without sep, in order: one more field than separators. */
  function Fields(s: string, sep: char): (r: seq<string>)
    ensures |r| >= 1
    ensures forall k :: 0 <= k < |r| ==> sep !in r[k]
  {
    if s == [] then [[]]
    else
      var rest := Fields(s[1..], sep);
      if s[0] == sep then [[]] + rest
      else [[s[0]] + rest[0]] + rest[1..]
  }

  /** The fields written back out with sep between consecutive ones. */
  function Join(fs: seq<string>, sep: char): string
  {
    if fs == [] then []
    else if |fs| == 1 then fs[0]
    else fs[0] + [sep] + Join(fs[1..], sep)
  }

  /** Joining the fields of s with the separator gives back s. */
  lemma {:induction false} JoinOfFields(s: string, sep: char)
    ensures Join(Fields(s, sep), sep) == s
  {
    if s != [] {
      JoinOfFields(s[1..], sep);
      var rest := Fields(s[1..], sep);
      if s[0] == sep {
        assert ([[]] + rest)[1..] == rest;
      } else {
        var fs := [[s[0]] + rest[0]] + rest[1..];
        assert fs[1..] == rest[1..];
        if |rest| > 1 {
          assert Join(rest, sep) == rest[0] + [sep] + Join(rest[1..], sep);
        }
        assert [s[0]] + s[1..] == s;
      }
    }
  }

  /** Splitting what Join wrote gives back the fields, when none contains the separator. */
  lemma {:induction false} FieldsOfJoin(fs: seq<string>, sep: char)
    requires |fs| >= 1
    requires forall k :: 0 <= k < |fs| ==> sep !in fs[k]
    ensures Fields(Join(fs, sep), sep) == fs
  {
    if |fs| == 1 {
      FieldsWithoutSeparator(fs[0], sep);
    } else {
      FieldsOfJoin(fs[1..], sep);
      FieldsAfterField(fs[0], Join(fs[1..], sep), sep);
    }
  }

  /** A field followed by the separator comes off the front of the split whole. */
  lemma {:induction false} FieldsAfterField(f: string, rest: string, sep: char)
    requires sep !in f
    ensures Fields(f + [sep] + rest, sep) == [f] + Fields(rest, sep)
    decreases |f|
  {
    var s := f + [sep] + rest;
    if f == [] {
      assert s[1..] == rest;
    } else {
      FieldsAfterField(f[1..], rest, sep);
      assert s[1..] == f[1..] + [sep] + rest;
      var tail := Fields(s[1..], sep);
      assert tail[0] == f[1..] && tail[1..] == Fields(rest, sep);
      assert s[0] == f[0] && f[0] != sep;
      assert [f[0]] + f[1..] == f;
    }
  }

  /** A last field after the separator comes off the end of the split whole, whatever precedes it. */
  lemma {:induction false} FieldsBeforeField(init: string, f: string, sep: char)
    requires sep !in f
    ensures Fields(init + [sep] + f, sep) == Fields(init, sep) + [f]
    decreases |init|
  {
    var s := init + [sep] + f;
    if init == [] {
      assert s[1..] == f;
      FieldsWithoutSeparator(f, sep);
    } else {
      FieldsBeforeField(init[1..], f, sep);
      assert s[1..] == init[1..] + [sep] + f;
      var prev := Fields(init[1..], sep);
      assert Fields(s[1..], sep) == prev + [f];
      if init[0] != sep {
        assert (prev + [f])[0] == prev[0] && (prev + [f])[1..] == prev[1..] + [f];
      }
    }
  }

  lemma {:induction false} FieldsWithoutSeparator(s: string, sep: char)
    requires sep !in s
    ensures Fields(s, sep) == [s]
  {
    if s != [] {
      FieldsWithoutSeparator(s[1..], sep);
      assert [s[0]] + s[1..] == s;
    }
  }

  /** Join starts with the first field and ends with the last one. */
  lemma {:induction false} JoinEnds(fs: seq<string>, sep: char)
    requires |fs| >= 1
    ensures var j := Join(fs, sep);
      && |j| >= |fs[0]| && |j| >= |fs[|fs| - 1]|
      && j[..|fs[0]|] == fs[0]
      && j[|j| - |fs[|fs| - 1]|..] == fs[|fs| - 1]
  {
    if |fs| > 1 {
      JoinEnds(fs[1..], sep);
      assert Join(fs, sep) == fs[0] + ([sep] + Join(fs[1..], sep));
      assert Join(fs, sep) == (fs[0] + [sep]) + Join(fs[1..], sep);
    }
  }

  /** Drops the empty strings at the end of a split, as String.split(regex) does. */
  function DropTrailingEmpty(fs: seq<string>): (r: seq<string>)
    ensures |r| <= |fs| && r == fs[..|r|]
    ensures r == [] || r[|r| - 1] != []
    ensures forall k :: |r| <= k < |fs| ==> fs[k] == []
  {
    if fs != [] && fs[|fs| - 1] == [] then DropTrailingEmpty(fs[..|fs| - 1]) else fs
  }

  /**
   * String.split(String.valueOf(sep)) for a separator that is not a regular
   * expression metacharacter: a string without the separator comes back as
   * the only element (even when it is empty); otherwise the fields, with the
   * trailing empty ones removed.
   */
  function Split(s: string, sep: char): (r: seq<string>)
    ensures forall k :: 0 <= k < |r| ==> sep !in r[k]
  {
    if sep !in s then [s] else DropTrailingEmpty(Fields(s, sep))
  }

  lemma {:induction false} JoinOfEmptyFields(fs: seq<string>, sep: char)
    requires forall k :: 0 <= k < |fs| ==> fs[k] == []
    ensures forall i :: 0 <= i < |Join(fs, sep)| ==> Join(fs, sep)[i] == sep
  {
    if |fs| > 1 {
      JoinOfEmptyFields(fs[1..], sep);
      assert Join(fs, sep) == [sep] + Join(fs[1..], sep);
    }
  }

  lemma {:induction false} JoinKeepsFieldChars(fs: seq<string>, sep: char, k: nat, c: char)
    requires k < |fs| && c in fs[k]
    ensures c in Join(fs, sep)
  {
    if |fs| > 1 {
      if k == 0 {
        assert Join(fs, sep) == fs[0] + ([sep] + Join(fs[1..], sep));
      } else {
        JoinKeepsFieldChars(fs[1..], sep, k - 1, c);
        assert Join(fs, sep) == (fs[0] + [sep]) + Join(fs[1..], sep);
      }
    }
  }

  /** String.split returns no element at all exactly for a non-empty string made only of separators. */
  lemma SplitEmptyIffOnlySeparators(s: string, sep: char)
    ensures |Split(s, sep)| == 0 <==> s != [] && forall i :: 0 <= i < |s| ==> s[i] == sep
  {
    JoinOfFields(s, sep);
    if s != [] && forall i :: 0 <= i < |s| ==> s[i] == sep {
      assert s[0] == sep;
      var fs := Fields(s, sep);
      forall k | 0 <= k < |fs| ensures fs[k] == [] {
        if fs[k] != [] {
          JoinKeepsFieldChars(fs, sep, k, fs[k][0]);
        }
      }
      assert DropTrailingEmpty(fs) == [];
    }
    if |Split(s, sep)| == 0 {
      JoinOfEmptyFields(Fields(s, sep), sep);
    }
  }

  /** Splitting what Join wrote gives back the parts, when none contains the separator and the last is not empty. */
  lemma SplitOfJoin(fs: seq<string>, sep: char)
    requires |fs| >= 1 && fs[|fs| - 1] != []
    requires forall k :: 0 <= k < |fs| ==> sep !in fs[k]
    ensures Split(Join(fs, sep), sep) == fs
  {
    FieldsOfJoin(fs, sep);
    if |fs| == 1 {
      FieldsWithoutSeparator(fs[0], sep);
    } else {
      assert Join(fs, sep) == fs[0] + [sep] + Join(fs[1..], sep);
      assert Join(fs, sep)[|fs[0]|] == sep;
    }
  }

  /** Splitting at a separator followed by a non-empty last field keeps every field, that one last. */
  lemma SplitBeforeField(init: string, f: string, sep: char)
    requires sep !in f && f != []
    ensures Split(init + [sep] + f, sep) == Fields(init, sep) + [f]
  {
    FieldsBeforeField(init, f, sep);
    assert (init + [sep] + f)[|init|] == sep;
  }
}
