/** Strings and byte strings as the result processing uses them: substring
    tests (Python's `in` on `str` and `bytes`), the comma-joined keys that
    merging produces, and the decimal rendering of return codes. */
module Text {

  type byte = bv8

  /** `p` starts at position `i` of `s`. */
  predicate OccursAt<T(==)>(p: seq<T>, s: seq<T>, i: nat)
  {
    i + |p| <= |s| && s[i..i + |p|] == p
  }

  /** `p` is a contiguous part of `s`: Python's `p in s` on `str` and `bytes`. */
  predicate IsFactor<T(==)>(p: seq<T>, s: seq<T>)
    decreases |s|
  {
    (|p| <= |s| && s[..|p|] == p) || (|s| > 0 && IsFactor(p, s[1..]))
  }

  /** The recursive test agrees with "occurs at some position", in both directions. */
  lemma {:induction false} IsFactorIffOccurs<T>(p: seq<T>, s: seq<T>)
    ensures IsFactor(p, s) <==> exists i: nat :: OccursAt(p, s, i)
    decreases |s|
  {
    if IsFactor(p, s) {
      if |p| <= |s| && s[..|p|] == p {
        assert OccursAt(p, s, 0);
      } else {
        IsFactorIffOccurs(p, s[1..]);
        var i: nat :| OccursAt(p, s[1..], i);
        assert s[1..][i..i + |p|] == s[i + 1..i + 1 + |p|];
        assert OccursAt(p, s, i + 1);
      }
    }
    if exists i: nat :: OccursAt(p, s, i) {
      var i: nat :| OccursAt(p, s, i);
      if i > 0 {
        assert s[1..][i - 1..i - 1 + |p|] == s[i..i + |p|];
        assert OccursAt(p, s[1..], i - 1);
        IsFactorIffOccurs(p, s[1..]);
      } else {
        assert s[..|p|] == s[0..0 + |p|];
      }
    }
  }

  /** A factor of `s` is made of characters of `s`. */
  lemma {:induction false} FactorElements<T>(p: seq<T>, s: seq<T>, c: T)
    requires IsFactor(p, s) && c in p
    ensures c in s
    decreases |s|
  {
    if |p| <= |s| && s[..|p|] == p {
      assert c in s[..|p|];
    } else {
      FactorElements(p, s[1..], c);
      assert c in s[1..];
    }
  }

  /** A factor of a part is a factor of the concatenation. */
  lemma {:induction false} FactorOfConcat<T>(p: seq<T>, a: seq<T>, b: seq<T>)
    requires IsFactor(p, a) || IsFactor(p, b)
    ensures IsFactor(p, a + b)
  {
    IsFactorIffOccurs(p, a + b);
    if IsFactor(p, a) {
      IsFactorIffOccurs(p, a);
      var i: nat :| OccursAt(p, a, i);
      assert (a + b)[i..i + |p|] == a[i..i + |p|];
      assert OccursAt(p, a + b, i);
    } else {
      IsFactorIffOccurs(p, b);
      var i: nat :| OccursAt(p, b, i);
      assert (a + b)[|a| + i..|a| + i + |p|] == b[i..i + |p|];
      assert OccursAt(p, a + b, |a| + i);
    }
  }

  /** A sequence is a factor of anything that contains it between two parts. */
  lemma FactorOfItself<T>(p: seq<T>, a: seq<T>, c: seq<T>)
    ensures IsFactor(p, a + p + c)
  {
    assert (p + c)[..|p|] == p;
    FactorOfConcat(p, a, p + c);
    assert a + p + c == a + (p + c);
  }

  // ---------------------------------------------------------------------
  // Merged option keys

  /** What separates the option names inside a merged key. */
  const Separator: string := ", "

  /** The key of a merged entry: the option names in order, separated by ", ". */
  function Join(names: seq<string>): string
  {
    if |names| == 0 then ""
    else if |names| == 1 then names[0]
    else names[0] + Separator + Join(names[1..])
  }

  /** Appending a name to a group appends it to the group's key. */
  lemma {:induction false} JoinSnoc(names: seq<string>, k: string)
    requires |names| > 0
    ensures Join(names + [k]) == Join(names) + Separator + k
  {
    if |names| > 1 {
      assert (names + [k])[1..] == names[1..] + [k];
      JoinSnoc(names[1..], k);
    } else {
      assert (names + [k])[1..] == [k];
    }
  }

  /** Every name of a group is a substring of the group's key, which is what
      Python's `option in key` tests. */
  lemma {:induction false} NameInJoin(names: seq<string>, k: string)
    requires k in names
    ensures IsFactor(k, Join(names))
  {
    if names[0] == k {
      assert Join(names)[..|k|] == k;
    } else {
      assert k in names[1..];
      NameInJoin(names[1..], k);
      FactorOfConcat(k, names[0] + Separator, Join(names[1..]));
    }
  }

  /** No name of the list contains a comma. */
  predicate CommaFree(names: seq<string>)
  {
    forall n :: n in names ==> ',' !in n
  }

  /** The index of the first comma of `s`, or `|s|` if there is none. */
  function FirstComma(s: string): (i: nat)
    ensures i <= |s|
    ensures i < |s| ==> s[i] == ','
    ensures forall j :: 0 <= j < i ==> s[j] != ','
  {
    if |s| == 0 then 0
    else if s[0] == ',' then 0
    else 1 + FirstComma(s[1..])
  }

  /** `i` is the first-comma index of `s` as soon as it has its two properties. */
  lemma FirstCommaUnique(s: string, i: nat)
    requires i <= |s|
    requires i < |s| ==> s[i] == ','
    requires forall j :: 0 <= j < i ==> s[j] != ','
    ensures FirstComma(s) == i
  {
  }

  function DropSpace(s: string): (r: string)
    ensures |r| <= |s|
  {
    if |s| > 0 && s[0] == ' ' then s[1..] else s
  }

  /** Reads a merged key back into its option names. */
  function Parts(s: string): seq<string>
    decreases |s|
  {
    var i := FirstComma(s);
    if i == |s| then [s] else [s[..i]] + Parts(DropSpace(s[i + 1..]))
  }

  /** Reading a merged key back gives exactly the names that were joined,
      provided no name contains a comma. */
  lemma {:induction false} PartsOfJoin(names: seq<string>)
    requires |names| > 0 && CommaFree(names)
    ensures Parts(Join(names)) == names
  {
    var n := names[0];
    assert ',' !in n;
    if |names| == 1 {
      FirstCommaUnique(n, |n|);
    } else {
      var rest := Join(names[1..]);
      var s := n + Separator + rest;
      assert s == Join(names);
      assert s[|n|] == ',';
      assert forall j :: 0 <= j < |n| ==> s[j] == n[j];
      FirstCommaUnique(s, |n|);
      assert s[..|n|] == n;
      assert s[|n| + 1..] == " " + rest;
      assert DropSpace(s[|n| + 1..]) == rest;
      assert CommaFree(names[1..]) by {
        forall m | m in names[1..] ensures ',' !in m {
          assert m in names;
        }
      }
      PartsOfJoin(names[1..]);
    }
  }

  /** Two groups of names with the same key are the same group. */
  lemma JoinInjective(g1: seq<string>, g2: seq<string>)
    requires |g1| > 0 && |g2| > 0 && CommaFree(g1) && CommaFree(g2)
    requires Join(g1) == Join(g2)
    ensures g1 == g2
  {
    PartsOfJoin(g1);
    PartsOfJoin(g2);
  }

  // ---------------------------------------------------------------------
  // Decimal rendering of integers (Python's `str(int)`)

  predicate IsDigit(c: char)
  {
    '0' <= c <= '9'
  }

  function DigitChar(d: nat): (c: char)
    requires d < 10
    ensures IsDigit(c) && c as int - '0' as int == d
  {
    ('0' as int + d) as char
  }

  function NatToDecimal(n: nat): (r: string)
    ensures |r| > 0
    ensures forall i :: 0 <= i < |r| ==> IsDigit(r[i])
  {
    if n < 10 then [DigitChar(n)] else NatToDecimal(n / 10) + [DigitChar(n % 10)]
  }

  /** `str(n)` for an integer: its decimal digits, with a leading '-' when negative. */
  function IntToDecimal(n: int): (r: string)
    ensures |r| > 0
    ensures (r[0] == '-') <==> n < 0
    ensures forall i :: (if n < 0 then 1 else 0) <= i < |r| ==> IsDigit(r[i])
  {
    if n < 0 then "-" + NatToDecimal(-n) else NatToDecimal(n)
  }

  /** The value of a string of decimal digits. */
  function DigitsValue(s: string): int
  {
    if |s| == 0 then 0
    else DigitsValue(s[..|s| - 1]) * 10 + (s[|s| - 1] as int - '0' as int)
  }

  /** Python's `int(s)` on what `str` produces. */
  function DecimalValue(s: string): int
  {
    if |s| > 0 && s[0] == '-' then -DigitsValue(s[1..]) else DigitsValue(s)
  }

  lemma {:induction false} NatToDecimalRoundTrip(n: nat)
    ensures DigitsValue(NatToDecimal(n)) == n
  {
    var r := NatToDecimal(n);
    if n >= 10 {
      NatToDecimalRoundTrip(n / 10);
      assert r[..|r| - 1] == NatToDecimal(n / 10);
    }
  }

  /** The decimal rendering loses nothing: parsing it gives the number back. */
  lemma DecimalRoundTrip(n: int)
    ensures DecimalValue(IntToDecimal(n)) == n
  {
    if n < 0 {
      NatToDecimalRoundTrip(-n);
      assert IntToDecimal(n)[1..] == NatToDecimal(-n);
    } else {
      NatToDecimalRoundTrip(n);
    }
  }

  /** The rendering is one-to-one. */
  lemma DecimalInjective(m: int, n: int)
    requires IntToDecimal(m) == IntToDecimal(n)
    ensures m == n
  {
    DecimalRoundTrip(m);
    DecimalRoundTrip(n);
  }

  // ---------------------------------------------------------------------
  // Byte strings written as text

  /** The bytes of a `b'...'` literal written as text: each character's code,
      taken modulo 256 (the literals used here are ASCII). */
  function Bytes(s: string): (b: seq<byte>)
    ensures |b| == |s|
    ensures forall i :: 0 <= i < |s| && s[i] as int < 256 ==> b[i] as int == s[i] as int
  {
    seq(|s|, i requires 0 <= i < |s| => CharByte(s[i]))
  }

  function CharByte(c: char): (b: byte)
    ensures c as int < 256 ==> b as int == c as int
  {
    (c as int % 256) as byte
  }
}
