/**
 * The few QString services the terminal relies on, stated concretely:
 * number parsing and rendering in a base, removal of a substring, and `left`.
 * Only plain digit strings are modelled (see README, "Left out").
 */
module QtStrings {
  import opened Wrappers

  const UInt32Limit: nat := 0x1_0000_0000
  const UInt64Limit: nat := 0x1_0000_0000_0000_0000

  /** The bases QString's number conversions accept. */
  predicate ValidRadix(radix: int)
  {
    2 <= radix <= 36
  }

  /** The value of `c` as a digit of `radix`; letters count in either case. */
  function DigitValue(c: char, radix: nat): (d: Option<nat>)
    requires ValidRadix(radix)
    ensures d.Some? ==> d.value < radix
  {
    var v :=
      if '0' <= c <= '9' then c as int - '0' as int
      else if 'a' <= c <= 'z' then c as int - 'a' as int + 10
      else if 'A' <= c <= 'Z' then c as int - 'A' as int + 10
      else radix;
    if v < radix then Some(v) else None
  }

  /** The (lower-case) character QString::number emits for digit `d`. */
  function DigitChar(d: nat): (c: char)
    requires d < 36
    ensures forall radix :: ValidRadix(radix) && d < radix ==> DigitValue(c, radix) == Some(d)
    ensures c == '0' <==> d == 0
  {
    if d < 10 then ('0' as int + d) as char else ('a' as int + d - 10) as char
  }

  /** The number a string of digits denotes, most significant digit first; None when some character is not a digit of `radix`. */
  function DigitsValue(s: seq<char>, radix: nat): (r: Option<nat>)
    requires ValidRadix(radix)
    ensures r.Some? <==> forall i :: 0 <= i < |s| ==> DigitValue(s[i], radix).Some?
    decreases |s|
  {
    if s == [] then Some(0)
    else
      var last := DigitValue(s[|s| - 1], radix);
      match DigitsValue(s[..|s| - 1], radix)
      case None => None
      case Some(high) => if last.None? then None else Some(high * radix + last.value)
  }

  /**
   * QString::toUInt / toULongLong in a given base: the value, or None where Qt reports
   * failure — an empty string, a character that is not a digit, a value not below `limit`.
   */
  function ParseUnsigned(s: seq<char>, radix: nat, limit: nat): (r: Option<nat>)
    requires ValidRadix(radix)
    ensures r.Some? ==> s != [] && r.value < limit
    ensures r.Some? ==> forall i :: 0 <= i < |s| ==> DigitValue(s[i], radix).Some?
  {
    if s == [] then None
    else match DigitsValue(s, radix)
      case None => None
      case Some(v) => if v < limit then Some(v) else None
  }

  /** Euclidean division by the base: the quotient is smaller and the remainder is a digit. */
  lemma DivideByRadix(n: nat, radix: nat)
    requires ValidRadix(radix) && n >= radix
    ensures 1 <= n / radix < n && n % radix < radix
    ensures n == (n / radix) * radix + n % radix
  {
  }

  /** QString::number(n, radix): the shortest digit string, without leading zeros. */
  function Render(n: nat, radix: nat): (s: seq<char>)
    requires ValidRadix(radix)
    ensures s != [] && (n != 0 ==> s[0] != '0')
    ensures forall i :: 0 <= i < |s| ==> DigitValue(s[i], radix).Some?
    decreases n
  {
    if n < radix then [DigitChar(n)]
    else
      DivideByRadix(n, radix);
      Render(n / radix, radix) + [DigitChar(n % radix)]
  }

  /** Rendered digits denote the number they were rendered from. */
  lemma {:induction false} RenderDenotes(n: nat, radix: nat)
    requires ValidRadix(radix)
    ensures DigitsValue(Render(n, radix), radix) == Some(n)
    decreases n
  {
    var s := Render(n, radix);
    if n < radix {
      assert s[..|s| - 1] == [];
    } else {
      DivideByRadix(n, radix);
      RenderDenotes(n / radix, radix);
      assert s[..|s| - 1] == Render(n / radix, radix);
    }
  }

  /** Parsing what QString::number rendered, in the same base, gives the number back. */
  lemma RenderParses(n: nat, radix: nat, limit: nat)
    requires ValidRadix(radix) && n < limit
    ensures ParseUnsigned(Render(n, radix), radix, limit) == Some(n)
  {
    RenderDenotes(n, radix);
  }

  /** ASCII case folding, which is all that Qt::CaseInsensitive needs here. */
  function FoldCase(c: char): char
  {
    if 'A' <= c <= 'Z' then (c as int - 'A' as int + 'a' as int) as char else c
  }

  predicate SameChar(a: char, b: char, caseInsensitive: bool)
  {
    if caseInsensitive then FoldCase(a) == FoldCase(b) else a == b
  }

  /** Whether `s` begins with `pat`. */
  predicate StartsWith(s: seq<char>, pat: seq<char>, caseInsensitive: bool)
  {
    |pat| <= |s| && forall k :: 0 <= k < |pat| ==> SameChar(s[k], pat[k], caseInsensitive)
  }

  /**
   * QString::remove(pat, cs): deletes the non-overlapping occurrences of `pat`
   * found scanning left to right; occurrences formed by a deletion are not rescanned.
   */
  function RemoveAll(s: seq<char>, pat: seq<char>, caseInsensitive: bool): (r: seq<char>)
    requires pat != []
    ensures |r| <= |s|
    decreases |s|
  {
    if s == [] then []
    else if StartsWith(s, pat, caseInsensitive) then RemoveAll(s[|pat|..], pat, caseInsensitive)
    else [s[0]] + RemoveAll(s[1..], pat, caseInsensitive)
  }

  /** Removal only deletes: what is left is a sub-multiset of `s`. */
  lemma {:induction false} RemoveAllOnlyDeletes(s: seq<char>, pat: seq<char>, caseInsensitive: bool)
    requires pat != []
    ensures multiset(RemoveAll(s, pat, caseInsensitive)) <= multiset(s)
    decreases |s|
  {
    if s != [] {
      if StartsWith(s, pat, caseInsensitive) {
        assert s == s[..|pat|] + s[|pat|..];
        RemoveAllOnlyDeletes(s[|pat|..], pat, caseInsensitive);
      } else {
        assert s == [s[0]] + s[1..];
        RemoveAllOnlyDeletes(s[1..], pat, caseInsensitive);
      }
    }
  }

  /** An occurrence formed by a deletion is not removed: "00xx" loses its inner "0x" and keeps the outer one. */
  lemma NoRescan()
    ensures RemoveAll("00xx", "0x", false) == "0x"
  {
    assert !StartsWith("00xx", "0x", false) by { assert "00xx"[1] != "0x"[1]; }
    assert "00xx"[1..] == "0xx";
    assert StartsWith("0xx", "0x", false);
    assert "0xx"[2..] == "x";
  }

  /** Removing a one-character string leaves no occurrence of that character. */
  lemma {:induction false} RemoveCharLeavesNone(s: seq<char>, c: char)
    ensures c !in RemoveAll(s, [c], false)
    decreases |s|
  {
    if s != [] {
      if StartsWith(s, [c], false) {
        RemoveCharLeavesNone(s[1..], c);
      } else {
        assert s[0] != c;
        RemoveCharLeavesNone(s[1..], c);
      }
    }
  }

  /** A string in which the last character of `pat` never occurs is left as it is. */
  lemma {:induction false} RemoveAllAbsent(s: seq<char>, pat: seq<char>, caseInsensitive: bool)
    requires pat != []
    requires forall i :: 0 <= i < |s| ==> !SameChar(s[i], pat[|pat| - 1], caseInsensitive)
    ensures RemoveAll(s, pat, caseInsensitive) == s
    decreases |s|
  {
    if s != [] {
      assert !StartsWith(s, pat, caseInsensitive) by {
        if |pat| <= |s| {
          assert !SameChar(s[|pat| - 1], pat[|pat| - 1], caseInsensitive);
        }
      }
      RemoveAllAbsent(s[1..], pat, caseInsensitive);
      assert s == [s[0]] + s[1..];
    }
  }

  /** QString::left(n): the first `n` characters, or all of `s` when it is not longer. */
  function Left(s: seq<char>, n: nat): (r: seq<char>)
    ensures |r| == if n < |s| then n else |s|
    ensures r <= s
  {
    if n < |s| then s[..n] else s
  }
}
