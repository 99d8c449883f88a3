/**
 * How MongoUtils.quote and setupAllTags serialise one replica-set tag as
 * `"name" : "value"`: every double quote is prefixed with a backslash and
 * backslashes themselves are left as they are.
 */
module TagQuoting {

  /** String.replace("\"", "\\\""): each double quote becomes backslash, double quote. */
  function Escape(s: string): (r: string)
    ensures |r| >= |s|
  {
    if s == [] then []
    else (if s[0] == '"' then ['\\', '"'] else [s[0]]) + Escape(s[1..])
  }

  /** MongoUtils.quote, with its test for a double quote before escaping. */
  function Quote(s: string): (r: string)
    ensures |r| >= |s| + 2
  {
    var escaped := if '"' in s then Escape(s) else s;
    "\"" + escaped + "\""
  }

  /** The entry setupAllTags records for the tag name n with value v. */
  function Combined(n: string, v: string): string
  {
    Quote(n) + " : " + Quote(v)
  }

  /** Reads an escaped string back: backslash, double quote is a double quote. */
  function Unescape(t: string): string
    decreases |t|
  {
    if |t| >= 2 && t[0] == '\\' && t[1] == '"' then "\"" + Unescape(t[2..])
    else if t == [] then []
    else [t[0]] + Unescape(t[1..])
  }

  lemma {:induction false} EscapeWithoutDoubleQuote(s: string)
    requires '"' !in s
    ensures Escape(s) == s
  {
    if s != [] {
      EscapeWithoutDoubleQuote(s[1..]);
      assert [s[0]] + s[1..] == s;
    }
  }

  /** quote always escapes: its test for a double quote only skips an escape that would change nothing. */
  lemma QuoteEscapes(s: string)
    ensures Quote(s) == "\"" + Escape(s) + "\""
  {
    if '"' !in s {
      EscapeWithoutDoubleQuote(s);
    }
  }

  /** A string without a double quote is only wrapped in one pair of double quotes. */
  lemma QuoteWithoutDoubleQuote(s: string)
    requires '"' !in s
    ensures Quote(s) == "\"" + s + "\""
    ensures |Quote(s)| == |s| + 2
  {
  }

  /** In an escaped string every double quote comes right after a backslash. */
  lemma {:induction false} EscapedQuotesArePrefixed(s: string)
    ensures forall i :: 0 <= i < |Escape(s)| && Escape(s)[i] == '"' ==> i > 0 && Escape(s)[i - 1] == '\\'
  {
    if s != [] {
      EscapedQuotesArePrefixed(s[1..]);
      var head := if s[0] == '"' then ['\\', '"'] else [s[0]];
      assert Escape(s) == head + Escape(s[1..]);
      forall i | 0 <= i < |Escape(s)| && Escape(s)[i] == '"'
        ensures i > 0 && Escape(s)[i - 1] == '\\'
      {
        if i >= |head| {
          assert Escape(s)[i] == Escape(s[1..])[i - |head|];
          if i - |head| > 0 {
            assert Escape(s)[i - 1] == Escape(s[1..])[i - |head| - 1];
          }
        }
      }
    }
  }

  /** Unescape undoes Escape, backslashes in the original included. */
  lemma {:induction false} UnescapeOfEscape(s: string)
    ensures Unescape(Escape(s)) == s
  {
    if s != [] {
      UnescapeOfEscape(s[1..]);
      var rest := Escape(s[1..]);
      if s[0] == '"' {
        assert Escape(s) == ['\\', '"'] + rest;
        assert Escape(s)[2..] == rest;
      } else {
        assert Escape(s) == [s[0]] + rest;
        EscapedQuotesArePrefixed(s[1..]);
        assert |rest| > 0 ==> rest[0] != '"';
        assert Escape(s)[1..] == rest;
        assert [s[0]] + s[1..] == s;
      }
    }
  }

  /** Where each part of a serialised tag sits. */
  lemma CombinedLayout(n: string, v: string)
    ensures var t, e, f := Combined(n, v), Escape(n), Escape(v);
      && |t| == |e| + |f| + 7
      && t[0] == '"'
      && (forall i :: 0 <= i < |e| ==> t[i + 1] == e[i])
      && t[|e| + 1] == '"' && t[|e| + 2] == ' ' && t[|e| + 3] == ':' && t[|e| + 4] == ' ' && t[|e| + 5] == '"'
      && (forall i :: 0 <= i < |f| ==> t[|e| + 6 + i] == f[i])
      && t[|t| - 1] == '"'
  {
    QuoteEscapes(n);
    QuoteEscapes(v);
    var e, f := Escape(n), Escape(v);
    assert Combined(n, v) == "\"" + e + "\" : \"" + f + "\"";
  }

  /** A serialised tag whose name part would be shorter than another's cannot equal it. */
  lemma {:induction false} ShorterNameDiffers(n1: string, v1: string, n2: string, v2: string)
    requires |Escape(n1)| < |Escape(n2)|
    ensures Combined(n1, v1) != Combined(n2, v2)
  {
    CombinedLayout(n1, v1);
    CombinedLayout(n2, v2);
    var t1, t2 := Combined(n1, v1), Combined(n2, v2);
    var a, b := |Escape(n1)|, |Escape(n2)|;
    // The name of t1 ends at a; t1 holds ` "` at a + 4 and a + 5.
    if a + 5 <= b {
      // In t2 the same two positions lie inside the escaped name.
      EscapedQuotesArePrefixed(n2);
      assert t2[a + 5] == Escape(n2)[a + 4] && t2[a + 4] == Escape(n2)[a + 3];
      assert t2[a + 5] == '"' ==> t2[a + 4] == '\\';
      assert t1[a + 4] == ' ' && t1[a + 5] == '"';
    } else if b == a + 1 {
      assert t1[a + 2] == ' ' && t2[a + 2] == '"';
    } else if b == a + 2 {
      assert t1[a + 3] == ':' && t2[a + 3] == '"';
    } else if b == a + 3 {
      assert t1[a + 4] == ' ' && t2[a + 4] == '"';
    } else if |t1| == |t2| {
      // b == a + 4: the separator of t2 ends where the value of t1 has begun.
      var f := Escape(v1);
      assert |f| >= 4;
      EscapedQuotesArePrefixed(v1);
      assert t1[a + 9] == f[3] && t1[a + 8] == f[2];
      assert t1[a + 9] == '"' ==> t1[a + 8] == '\\';
      assert t2[b + 4] == ' ' && t2[b + 5] == '"';
    }
  }

  /** Two readings of one entry with equally long names find the same name and the same value. */
  lemma SameLayoutSameParts(t: string, e1: string, f1: string, e2: string, f2: string)
    requires |e1| == |e2| && |t| == |e1| + |f1| + 7 && |t| == |e2| + |f2| + 7
    requires forall i :: 0 <= i < |e1| ==> t[i + 1] == e1[i]
    requires forall i :: 0 <= i < |e2| ==> t[i + 1] == e2[i]
    requires forall i :: 0 <= i < |f1| ==> t[|e1| + 6 + i] == f1[i]
    requires forall i :: 0 <= i < |f2| ==> t[|e2| + 6 + i] == f2[i]
    ensures e1 == e2 && f1 == f2
  {
    assert forall i :: 0 <= i < |e1| ==> e1[i] == e2[i];
    assert forall i :: 0 <= i < |f1| ==> f1[i] == t[|e1| + 6 + i] == f2[i];
  }

  /**
   * Distinct tags never share an entry: the serialised form determines both
   * the name and the value, so deduplicating entries deduplicates pairs.
   */
  lemma CombinedInjective(n1: string, v1: string, n2: string, v2: string)
    requires Combined(n1, v1) == Combined(n2, v2)
    ensures n1 == n2 && v1 == v2
  {
    if |Escape(n1)| < |Escape(n2)| {
      ShorterNameDiffers(n1, v1, n2, v2);
    } else if |Escape(n2)| < |Escape(n1)| {
      ShorterNameDiffers(n2, v2, n1, v1);
    } else {
      CombinedLayout(n1, v1);
      CombinedLayout(n2, v2);
      SameLayoutSameParts(Combined(n1, v1), Escape(n1), Escape(v1), Escape(n2), Escape(v2));
      UnescapeOfEscape(n1);
      UnescapeOfEscape(n2);
      UnescapeOfEscape(v1);
      UnescapeOfEscape(v2);
    }
  }

  /** Different tags are serialised differently. */
  lemma CombinedDiffers(n1: string, v1: string, n2: string, v2: string)
    requires n1 != n2 || v1 != v2
    ensures Combined(n1, v1) != Combined(n2, v2)
  {
    if Combined(n1, v1) == Combined(n2, v2) {
      CombinedInjective(n1, v1, n2, v2);
    }
  }

  /** A value with an embedded double quote, say"hi, is quoted with that quote escaped. */
  lemma QuoteEmbeddedDoubleQuoteExample()
    ensures Quote("say\"hi") == "\"say\\\"hi\""
  {
    assert "say\"hi"[3] == '"';
    QuoteEscapes("say\"hi");
  }
}
