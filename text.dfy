/** String helpers standing in for the JavaScript and Python string operations the modelled code uses. */
module Text {

  /** `s.startswith(p)` / `s.startsWith(p)`. */
  predicate StartsWith(s: string, p: string)
  {
    |p| <= |s| && s[..|p|] == p
  }

  /** `p in s` on strings: `p` occurs as a contiguous substring of `s`. */
  predicate Contains(s: string, p: string)
  {
    StartsWith(s, p) || (|s| > 0 && Contains(s[1..], p))
  }

  /** An occurrence at position `i` makes `p in s` hold. */
  lemma {:induction false} ContainsAt(s: string, p: string, i: nat)
    requires i + |p| <= |s| && s[i..i + |p|] == p
    ensures Contains(s, p)
  {
    if i > 0 {
      assert s[1..][i - 1..i - 1 + |p|] == p;
      ContainsAt(s[1..], p, i - 1);
    }
  }

  /** `p in s` fails when the first two characters of `p` never appear next to each other in `s`. */
  lemma {:induction false} NotContainsByPair(s: string, p: string)
    requires |p| >= 2
    requires forall i :: 0 <= i < |s| - 1 ==> !(s[i] == p[0] && s[i + 1] == p[1])
    ensures !Contains(s, p)
  {
    if |s| > 0 {
      NotContainsByPair(s[1..], p);
      if |p| <= |s| {
        assert !(s[0] == p[0] && s[1] == p[1]);
        assert s[..|p|][0] == s[0] && s[..|p|][1] == s[1];
      }
    }
  }

  /** Decimal digit of a value below ten. */
  function DigitChar(d: nat): (c: char)
    requires d < 10
    ensures '0' <= c <= '9'
  {
    "0123456789"[d]
  }

  /** Value of a decimal digit character. */
  function DigitValue(c: char): (d: nat)
    requires '0' <= c <= '9'
    ensures d < 10
  {
    (c as int - '0' as int) as nat
  }

  /** The decimal form of a natural number, as JavaScript's template literals and Python's `str` print it. */
  function NatToString(n: nat): (s: string)
    ensures |s| > 0
    ensures forall i :: 0 <= i < |s| ==> '0' <= s[i] <= '9'
    decreases n
  {
    if n < 10 then [DigitChar(n)] else NatToString(n / 10) + [DigitChar(n % 10)]
  }

  /** The decimal form of an integer, with a leading '-' when negative. */
  function IntToString(n: int): (s: string)
    ensures |s| > 0
  {
    if n >= 0 then NatToString(n) else "-" + NatToString(-n)
  }

  /** Reads a non-empty string of decimal digits. */
  function ParseNat(s: string): nat
    requires forall i :: 0 <= i < |s| ==> '0' <= s[i] <= '9'
  {
    if |s| == 0 then 0 else ParseNat(s[..|s| - 1]) * 10 + DigitValue(s[|s| - 1])
  }

  lemma DigitRoundTrip(d: nat)
    requires d < 10
    ensures DigitValue(DigitChar(d)) == d
  {
    assert "0123456789"[d] as int == '0' as int + d;
  }

  /** Printing a natural number in decimal and reading it back gives the number. */
  lemma {:induction false} NatToStringRoundTrip(n: nat)
    ensures ParseNat(NatToString(n)) == n
    decreases n
  {
    var s := NatToString(n);
    if n < 10 {
      DigitRoundTrip(n);
      assert s[..0] == [];
    } else {
      NatToStringRoundTrip(n / 10);
      DigitRoundTrip(n % 10);
      assert s[..|s| - 1] == NatToString(n / 10);
    }
  }

  /** Different natural numbers print differently. */
  lemma NatToStringInjective(a: nat, b: nat)
    requires NatToString(a) == NatToString(b)
    ensures a == b
  {
    NatToStringRoundTrip(a);
    NatToStringRoundTrip(b);
  }

  /** Characters up to (not including) the first space. */
  function TakeUntilSpace(s: string): (r: string)
    ensures StartsWith(s, r)
    ensures forall i :: 0 <= i < |r| ==> r[i] != ' '
    ensures |r| < |s| ==> s[|r|] == ' '
  {
    if |s| == 0 || s[0] == ' ' then "" else [s[0]] + TakeUntilSpace(s[1..])
  }

  /** Python's `s.split(sep)` with an explicit separator: every separator splits, so empty fields are kept. */
  function Split(s: string, sep: char): (parts: seq<string>)
    ensures |parts| >= 1
    decreases |s|
  {
    if |s| == 0 then [""]
    else
      var rest := Split(s[1..], sep);
      if s[0] == sep then [""] + rest else [[s[0]] + rest[0]] + rest[1..]
  }

  /** `sep.join(parts)`. */
  function Join(parts: seq<string>, sep: char): string
    requires |parts| >= 1
  {
    if |parts| == 1 then parts[0] else parts[0] + [sep] + Join(parts[1..], sep)
  }

  /** Splitting loses nothing: joining the fields back with the separator gives the string, and no field holds a separator. */
  lemma {:induction false} SplitJoin(s: string, sep: char)
    ensures Join(Split(s, sep), sep) == s
    ensures forall k, i :: 0 <= k < |Split(s, sep)| && 0 <= i < |Split(s, sep)[k]| ==> Split(s, sep)[k][i] != sep
    decreases |s|
  {
    if |s| > 0 {
      var rest := Split(s[1..], sep);
      SplitJoin(s[1..], sep);
      if s[0] == sep {
        assert ([""] + rest)[1..] == rest;
      } else {
        var parts := [[s[0]] + rest[0]] + rest[1..];
        if |rest| > 1 {
          assert parts[1..] == rest[1..];
          assert Join(rest, sep) == rest[0] + [sep] + Join(rest[1..], sep);
        }
        forall k, i | 0 <= k < |parts| && 0 <= i < |parts[k]|
          ensures parts[k][i] != sep
        {
          if k > 0 {
            assert parts[k] == rest[k];
          } else if i > 0 {
            assert parts[0][i] == rest[0][i - 1];
          }
        }
      }
    }
  }

  /** The first field of a split on spaces is the text before the first space. */
  lemma {:induction false} SplitFirstField(s: string)
    ensures Split(s, ' ')[0] == TakeUntilSpace(s)
    decreases |s|
  {
    if |s| > 0 && s[0] != ' ' {
      SplitFirstField(s[1..]);
    }
  }

  /** A word without spaces followed by a space is the first field, and the rest splits on its own. */
  lemma {:induction false} SplitAfterWord(w: string, t: string)
    requires forall i :: 0 <= i < |w| ==> w[i] != ' '
    ensures Split(w + " " + t, ' ') == [w] + Split(t, ' ')
    decreases |w|
  {
    var s := w + " " + t;
    if |w| == 0 {
      assert s[1..] == t;
    } else {
      assert s[1..] == w[1..] + " " + t;
      SplitAfterWord(w[1..], t);
      assert [w[0]] + w[1..] == w;
    }
  }
}
