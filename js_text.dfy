/**
 * The JavaScript string built-ins the stored-name scheme relies on:
 * String.prototype.split with a one-character separator, Array.prototype.join,
 * and the decimal text of a non-negative integer (what `number + string` writes).
 */
module JsText {

  /** The pieces `s.split(sep)` returns: the texts between the occurrences of `sep`.
      There is always at least one piece, no piece contains `sep`, and the first
      piece is the prefix of `s` up to (not including) the first `sep`. */
  function Split(s: string, sep: char): (r: seq<string>)
    ensures |r| >= 1
    ensures forall i :: 0 <= i < |r| ==> sep !in r[i]
    ensures |r[0]| <= |s| && r[0] == s[..|r[0]|]
    ensures |r[0]| == |s| || s[|r[0]|] == sep
    decreases |s|
  {
    if |s| == 0 then [""]
    else
      var rest := Split(s[1..], sep);
      if s[0] == sep then [""] + rest
      else
        assert s[1..][..|rest[0]|] == s[1..|rest[0]| + 1];
        [[s[0]] + rest[0]] + rest[1..]
  }

  /** `parts.join(sep)`: the parts with `sep` between neighbours; "" for no parts.
      A character that occurs in no part and not in `sep` does not occur in the
      result. */
  function Join(parts: seq<string>, sep: string): (r: string)
    ensures |parts| == 0 ==> r == ""
    ensures forall ch :: ch !in sep && (forall i :: 0 <= i < |parts| ==> ch !in parts[i]) ==> ch !in r
  {
    if |parts| == 0 then ""
    else if |parts| == 1 then parts[0]
    else parts[0] + sep + Join(parts[1..], sep)
  }

  /** `s` with every occurrence of the character `from` replaced by `to`. */
  function ReplaceChar(s: string, from: char, to: char): (r: string)
    ensures |r| == |s|
    ensures forall i :: 0 <= i < |s| ==> r[i] == if s[i] == from then to else s[i]
  {
    if |s| == 0 then ""
    else [if s[0] == from then to else s[0]] + ReplaceChar(s[1..], from, to)
  }

  /** A string without `sep` splits into exactly one piece, itself. */
  lemma {:induction false} SplitWithoutSeparator(s: string, sep: char)
    requires sep !in s
    ensures Split(s, sep) == [s]
  {
    if |s| > 0 {
      assert sep !in s[1..] by {
        forall i | 0 <= i < |s[1..]| ensures s[1..][i] != sep { assert s[1..][i] == s[i + 1]; }
      }
      SplitWithoutSeparator(s[1..], sep);
      assert [s[0]] + s[1..] == s;
    }
  }

  /** Splitting at a first separator: the part before it is the first piece and
      the pieces after it are the pieces of the rest. */
  lemma {:induction false} SplitAtFirst(a: string, sep: char, b: string)
    requires sep !in a
    ensures Split(a + [sep] + b, sep) == [a] + Split(b, sep)
  {
    if |a| == 0 {
      assert a + [sep] + b == [sep] + b;
      assert ([sep] + b)[1..] == b;
    } else {
      var s := a + [sep] + b;
      assert s[0] == a[0];
      assert s[1..] == a[1..] + [sep] + b;
      assert sep !in a[1..] by {
        forall i | 0 <= i < |a[1..]| ensures a[1..][i] != sep { assert a[1..][i] == a[i + 1]; }
      }
      SplitAtFirst(a[1..], sep, b);
      assert [a[0]] + a[1..] == a;
    }
  }

  /** For a string that contains `sep`, the pieces after the first are the pieces
      of the text that follows the first `sep`. */
  lemma SplitTail(s: string, sep: char)
    requires sep in s
    ensures |Split(s, sep)[0]| < |s|
    ensures Split(s, sep)[1..] == Split(s[|Split(s, sep)[0]| + 1..], sep)
  {
    var p := Split(s, sep)[0];
    var rest := s[|p| + 1..];
    assert s == p + [sep] + rest;
    SplitAtFirst(p, sep, rest);
  }

  /** Prepending a character to the first piece prepends it to the joined text. */
  lemma JoinConsFirst(x: char, parts: seq<string>, sep: string)
    requires |parts| >= 1
    ensures Join([[x] + parts[0]] + parts[1..], sep) == [x] + Join(parts, sep)
  {
    var q := [[x] + parts[0]] + parts[1..];
    assert q[1..] == parts[1..];
  }

  /** Splitting at `from` and joining with `to` replaces every `from` by `to`. */
  lemma {:induction false} JoinSplitReplaces(s: string, from: char, to: char)
    ensures Join(Split(s, from), [to]) == ReplaceChar(s, from, to)
    decreases |s|
  {
    if |s| > 0 {
      var rest := Split(s[1..], from);
      JoinSplitReplaces(s[1..], from, to);
      if s[0] == from {
        var q := [""] + rest;
        assert q[1..] == rest;
      } else {
        JoinConsFirst(s[0], rest, [to]);
      }
    }
  }

  /** Replacing a character by itself changes nothing. */
  lemma ReplaceCharSame(s: string, c: char)
    ensures ReplaceChar(s, c, c) == s
  {
  }

  /** `s.split(c).join(c)` gives back `s`. */
  lemma JoinSplitRoundTrip(s: string, c: char)
    ensures Join(Split(s, c), [c]) == s
  {
    JoinSplitReplaces(s, c, c);
    ReplaceCharSame(s, c);
  }

  /** Replacing a character that does not occur changes nothing; replacing one
      that does occur by a different one changes the string. */
  lemma ReplaceCharIdentityIff(s: string, from: char, to: char)
    requires from != to
    ensures ReplaceChar(s, from, to) == s <==> from !in s
  {
    var r := ReplaceChar(s, from, to);
    if from in s {
      var i :| 0 <= i < |s| && s[i] == from;
      assert r[i] == to;
    } else {
      assert forall i :: 0 <= i < |s| ==> r[i] == s[i];
    }
  }

  /** Replacing a character that does not occur leaves the string as it is. */
  lemma {:induction false} ReplaceCharAbsent(s: string, from: char, to: char)
    requires from !in s
    ensures ReplaceChar(s, from, to) == s
  {
    if |s| > 0 {
      assert from !in s[1..] by {
        forall i | 0 <= i < |s[1..]| ensures s[1..][i] != from { assert s[1..][i] == s[i + 1]; }
      }
      ReplaceCharAbsent(s[1..], from, to);
      assert [s[0]] + s[1..] == s;
    }
  }

  /** Replacing characters in a concatenation replaces them in each part. */
  lemma {:induction false} ReplaceCharConcat(a: string, b: string, from: char, to: char)
    ensures ReplaceChar(a + b, from, to) == ReplaceChar(a, from, to) + ReplaceChar(b, from, to)
  {
    if |a| > 0 {
      assert (a + b)[0] == a[0];
      assert (a + b)[1..] == a[1..] + b;
      ReplaceCharConcat(a[1..], b, from, to);
    } else {
      assert a + b == b;
    }
  }

  /** Replacing the one occurrence of `from` in `before + [from] + after`. */
  lemma ReplaceCharSingle(before: string, from: char, to: char, after: string)
    requires from !in before && from !in after
    ensures ReplaceChar(before + [from] + after, from, to) == before + [to] + after
  {
    ReplaceCharConcat(before + [from], after, from, to);
    ReplaceCharConcat(before, [from], from, to);
    ReplaceCharAbsent(before, from, to);
    ReplaceCharAbsent(after, from, to);
    assert ReplaceChar([from], from, to) == [to];
  }

  predicate IsDigit(c: char) { '0' <= c <= '9' }

  function DigitChar(d: nat): (c: char)
    requires d < 10
    ensures IsDigit(c)
  {
    (48 + d) as char
  }

  /** The decimal text of a non-negative integer. It is what JavaScript writes for
      `n + "-"` when n is below 2^53; above that JavaScript writes the shortest
      digits that read back to the same double, padded with zeros. Every time
      `Date.now()` returns (at most 8.64e15) is below 2^53. */
  function Decimal(n: nat): (r: string)
    ensures |r| >= 1
    ensures forall i :: 0 <= i < |r| ==> IsDigit(r[i])
    ensures r[0] == '0' ==> n == 0 && r == "0"
  {
    if n < 10 then [DigitChar(n)]
    else Decimal(n / 10) + [DigitChar(n % 10)]
  }

  /** The integer a string of decimal digits denotes. This is a reference
      definition of its own, the inverse of `Decimal`; the abstract `parseNumber`
      parameter elsewhere is tied to it only where a lemma says so. The value is 0
      exactly when every digit is '0'. */
  function DigitsValue(s: string): (v: nat)
    requires forall i :: 0 <= i < |s| ==> IsDigit(s[i])
    ensures v == 0 <==> forall i :: 0 <= i < |s| ==> s[i] == '0'
  {
    if |s| == 0 then 0
    else
      assert IsDigit(s[|s| - 1]);
      DigitsValue(s[..|s| - 1]) * 10 + (s[|s| - 1] as int - 48)
  }

  /** Reading the decimal text of n back gives n. */
  lemma {:induction false} DecimalRoundTrip(n: nat)
    ensures DigitsValue(Decimal(n)) == n
  {
    if n >= 10 {
      var d := Decimal(n / 10);
      var s := d + [DigitChar(n % 10)];
      assert s[..|s| - 1] == d;
      DecimalRoundTrip(n / 10);
    }
  }

  /** Distinct numbers have distinct decimal texts. */
  lemma DecimalInjective(m: nat, n: nat)
    ensures Decimal(m) == Decimal(n) <==> m == n
  {
    if Decimal(m) == Decimal(n) {
      DecimalRoundTrip(m);
      DecimalRoundTrip(n);
    }
  }

  /** A decimal text holds no hyphen. */
  lemma DecimalHasNoHyphen(n: nat)
    ensures '-' !in Decimal(n)
  {
  }
}
