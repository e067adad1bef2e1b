/** The Python string built-ins the two request handlers lean on: `sub in s`,
    `s.split(sep)` with a one-character separator, `int(s)` and `str(n)`.
    `Join` is not used by the servers; it is the inverse that `Split` is proved against. */
module PyStr {

  datatype Option<T> = None | Some(value: T)

  /** `s` spells `sub` starting at position `i`. */
  predicate OccursAt(s: string, sub: string, i: int)
  {
    0 <= i <= |s| - |sub| && s[i..i + |sub|] == sub
  }

  /** `sub in s`: some window of `s` spells `sub`. */
  predicate Contains(s: string, sub: string)
  {
    exists i | 0 <= i <= |s| - |sub| :: OccursAt(s, sub, i)
  }

  /** `s.split(sep)`: every occurrence of `sep` cuts, so a leading, trailing or
      doubled separator yields an empty piece, and the empty string yields `[""]`. */
  function Split(s: string, sep: char): (pieces: seq<string>)
    ensures |pieces| >= 1
    ensures forall i :: 0 <= i < |pieces| ==> sep !in pieces[i]
    decreases |s|
  {
    if |s| == 0 then [""]
    else
      var rest := Split(s[1..], sep);
      if s[0] == sep then [""] + rest
      else [[s[0]] + rest[0]] + rest[1..]
  }

  /** `sep.join(pieces)`. */
  function Join(pieces: seq<string>, sep: char): string
  {
    if |pieces| == 0 then ""
    else if |pieces| == 1 then pieces[0]
    else pieces[0] + [sep] + Join(pieces[1..], sep)
  }

  /** Three pieces joined: the separator between each neighbouring pair. */
  lemma JoinThree(a: string, b: string, c: string, sep: char)
    ensures Join([a, b, c], sep) == a + [sep] + b + [sep] + c
  {
    assert [a, b, c][1..] == [b, c];
    assert [b, c][1..] == [c];
    assert Join([b, c], sep) == b + [sep] + c;
  }

  /** A string without the separator is a single piece. */
  lemma {:induction false} SplitWithoutSep(s: string, sep: char)
    requires sep !in s
    ensures Split(s, sep) == [s]
    decreases |s|
  {
    if |s| > 0 {
      SplitWithoutSep(s[1..], sep);
      assert [s[0]] + s[1..] == s;
    }
  }

  /** The first separator ends the first piece; the rest is split on its own. */
  lemma {:induction false} SplitAtFirst(a: string, sep: char, b: string)
    requires sep !in a
    ensures Split(a + [sep] + b, sep) == [a] + Split(b, sep)
    decreases |a|
  {
    var s := a + [sep] + b;
    if |a| == 0 {
      assert s[1..] == b;
    } else {
      assert s[1..] == a[1..] + [sep] + b;
      SplitAtFirst(a[1..], sep, b);
      assert [a[0]] + a[1..] == a;
    }
  }

  /** Splitting then joining gives back the original text. */
  lemma {:induction false} JoinSplit(s: string, sep: char)
    ensures Join(Split(s, sep), sep) == s
    decreases |s|
  {
    if |s| > 0 {
      var rest := Split(s[1..], sep);
      JoinSplit(s[1..], sep);
      if s[0] == sep {
        assert Join([""] + rest, sep) == "" + [sep] + Join(rest, sep) by {
          assert ([""] + rest)[1..] == rest;
        }
        assert [s[0]] + s[1..] == s;
      } else {
        var pieces := [[s[0]] + rest[0]] + rest[1..];
        if |rest| == 1 {
          assert pieces == [[s[0]] + rest[0]];
          assert Join(rest, sep) == rest[0];
        } else {
          assert pieces[1..] == rest[1..];
          assert Join(rest, sep) == rest[0] + [sep] + Join(rest[1..], sep);
          assert Join(pieces, sep) == [s[0]] + rest[0] + [sep] + Join(rest[1..], sep);
        }
        assert [s[0]] + s[1..] == s;
      }
    }
  }

  /** A character in no piece, and other than the separator, is not in the joined text. */
  lemma {:induction false} NotInJoin(pieces: seq<string>, sep: char, c: char)
    requires c != sep
    requires forall i :: 0 <= i < |pieces| ==> c !in pieces[i]
    ensures c !in Join(pieces, sep)
    decreases |pieces|
  {
    if |pieces| > 1 {
      NotInJoin(pieces[1..], sep, c);
    }
  }

  /** Joining pieces that do not contain the separator, then splitting, gives back the pieces. */
  lemma {:induction false} SplitJoin(pieces: seq<string>, sep: char)
    requires |pieces| >= 1
    requires forall i :: 0 <= i < |pieces| ==> sep !in pieces[i]
    ensures Split(Join(pieces, sep), sep) == pieces
    decreases |pieces|
  {
    if |pieces| == 1 {
      SplitWithoutSep(pieces[0], sep);
    } else {
      SplitJoin(pieces[1..], sep);
      SplitAtFirst(pieces[0], sep, Join(pieces[1..], sep));
      assert [pieces[0]] + pieces[1..] == pieces;
    }
  }

  /** Text placed between two other strings is found by `in`. */
  lemma ContainsInside(before: string, sub: string, after: string)
    ensures Contains(before + sub + after, sub)
  {
    var s := before + sub + after;
    assert OccursAt(s, sub, |before|);
  }

  predicate IsDigit(c: char) { '0' as int <= c as int <= '9' as int }

  predicate IsDigits(s: string)
  {
    |s| > 0 && forall i :: 0 <= i < |s| ==> IsDigit(s[i])
  }

  /** The decimal value of a run of digits, most significant first. */
  function DigitsValue(s: string): nat
    requires forall i :: 0 <= i < |s| ==> IsDigit(s[i])
    decreases |s|
  {
    if |s| == 0 then 0
    else
      assert IsDigit(s[|s| - 1]);
      10 * DigitsValue(s[..|s| - 1]) + (s[|s| - 1] as int - '0' as int)
  }

  /** The characters MicroPython's `int()` skips around a number: space and `\t` through `\r`. */
  predicate IsSpace(c: char) { c == ' ' || '\t' as int <= c as int <= '\r' as int }

  /** `s` with its leading whitespace removed. */
  function TrimStart(s: string): (t: string)
    ensures |t| <= |s| && t == s[|s| - |t|..]
    ensures forall i :: 0 <= i < |s| - |t| ==> IsSpace(s[i])
    ensures t == [] || !IsSpace(t[0])
    decreases |s|
  {
    if |s| > 0 && IsSpace(s[0]) then TrimStart(s[1..]) else s
  }

  /** `s` with its trailing whitespace removed. */
  function TrimEnd(s: string): (t: string)
    ensures |t| <= |s| && t == s[..|t|]
    ensures forall i :: |t| <= i < |s| ==> IsSpace(s[i])
    ensures t == [] || !IsSpace(t[|t| - 1])
    decreases |s|
  {
    if |s| > 0 && IsSpace(s[|s| - 1]) then TrimEnd(s[..|s| - 1]) else s
  }

  predicate IsSign(c: char) { c == '+' || c == '-' }

  predicate HasDigit(s: string)
  {
    exists i | 0 <= i < |s| :: IsDigit(s[i])
  }

  /** An optional `+` or `-` followed by one or more decimal digits, and nothing else. */
  predicate SignedDigits(s: string)
  {
    |s| > 0 && IsDigit(s[|s| - 1]) && (IsDigit(s[0]) || IsSign(s[0])) &&
    forall i :: 0 < i < |s| ==> IsDigit(s[i])
  }

  /** The unpadded core of `int(s)`: succeeds exactly on signed digit runs. */
  function ParseSigned(s: string): (n: Option<int>)
    ensures n.Some? <==> SignedDigits(s)
    ensures n.Some? && n.value < 0 ==> s[0] == '-'
  {
    if |s| > 0 && (s[0] == '-' || s[0] == '+') then
      var digits := s[1..];
      if IsDigits(digits) then
        assert digits[|digits| - 1] == s[|s| - 1];
        assert forall i :: 0 < i < |s| ==> s[i] == digits[i - 1];
        var v: int := DigitsValue(digits);
        Some(if s[0] == '-' then -v else v)
      else None
    else if IsDigits(s) then Some(DigitsValue(s))
    else None
  }

  /** `int(s)` in base 10: surrounding whitespace is skipped, then a signed run of digits
      must make up the rest; anything else is the ValueError a caller has to catch. */
  function ParseInt(s: string): (n: Option<int>)
    ensures n.Some? ==> HasDigit(s)
    ensures (exists i | 0 <= i < |s| :: !IsSpace(s[i]) && !IsDigit(s[i]) && !IsSign(s[i])) ==> n == None
    ensures |s| > 0 && !IsSpace(s[0]) && !IsSpace(s[|s| - 1]) ==> n == ParseSigned(s)
  {
    var n := ParseSigned(TrimEnd(TrimStart(s)));
    if n.Some? then
      TrimmedCharacters(s, TrimStart(s), TrimEnd(TrimStart(s)));
      n
    else n
  }

  /** When the text left after trimming is a signed digit run, the whole text ends its
      number in a digit and holds only whitespace, digits and signs. */
  lemma TrimmedCharacters(s: string, u: string, t: string)
    requires u == TrimStart(s) && t == TrimEnd(u)
    requires SignedDigits(t)
    ensures HasDigit(s)
    ensures forall i :: 0 <= i < |s| ==> IsSpace(s[i]) || IsDigit(s[i]) || IsSign(s[i])
  {
    var k := |s| - |u|;
    assert u == s[k..];
    assert t == u[..|t|];
    PaddedCharacters(s, k, u, t);
  }

  /** The same, for a text cut into leading whitespace, the core `t` and trailing whitespace. */
  lemma PaddedCharacters(s: string, k: nat, u: string, t: string)
    requires k <= |s| && u == s[k..] && |t| <= |u| && t == u[..|t|]
    requires forall i :: 0 <= i < k ==> IsSpace(s[i])
    requires forall i :: |t| <= i < |u| ==> IsSpace(u[i])
    requires SignedDigits(t)
    ensures HasDigit(s)
    ensures forall i :: 0 <= i < |s| ==> IsSpace(s[i]) || IsDigit(s[i]) || IsSign(s[i])
  {
    assert s[k + |t| - 1] == t[|t| - 1];
    forall i | 0 <= i < |s|
      ensures IsSpace(s[i]) || IsDigit(s[i]) || IsSign(s[i])
    {
      if k <= i < k + |t| {
        assert s[i] == t[i - k];
      } else if i >= k + |t| {
        assert s[i] == u[i - k];
      }
    }
  }

  /** MicroPython whitespace on either side of a number does not change what `int` reads. */
  lemma ParseIntPadded(before: string, t: string, after: string)
    requires forall i :: 0 <= i < |before| ==> IsSpace(before[i])
    requires forall i :: 0 <= i < |after| ==> IsSpace(after[i])
    requires t == [] || (!IsSpace(t[0]) && !IsSpace(t[|t| - 1]))
    ensures ParseInt(before + t + after) == ParseSigned(t)
  {
    var s := before + t + after;
    if t == [] {
      assert s == (before + after) + [];
      TrimStartSpaces(before + after, []);
    } else {
      assert s == before + (t + after);
      TrimStartSpaces(before, t + after);
      TrimEndSpaces(t, after);
    }
    ParseIntOfCore(s, t);
  }

  lemma ParseIntOfCore(s: string, t: string)
    requires TrimEnd(TrimStart(s)) == t
    ensures ParseInt(s) == ParseSigned(t)
  {
  }

  lemma {:induction false} TrimStartSpaces(before: string, rest: string)
    requires forall i :: 0 <= i < |before| ==> IsSpace(before[i])
    requires rest == [] || !IsSpace(rest[0])
    ensures TrimStart(before + rest) == rest
    decreases |before|
  {
    if |before| > 0 {
      assert (before + rest)[1..] == before[1..] + rest;
      TrimStartSpaces(before[1..], rest);
    } else {
      assert before + rest == rest;
    }
  }

  lemma {:induction false} TrimEndSpaces(rest: string, after: string)
    requires forall i :: 0 <= i < |after| ==> IsSpace(after[i])
    requires rest == [] || !IsSpace(rest[|rest| - 1])
    ensures TrimEnd(rest + after) == rest
    decreases |after|
  {
    if |after| > 0 {
      var n := |after| - 1;
      assert (rest + after)[..|rest + after| - 1] == rest + after[..n];
      TrimEndSpaces(rest, after[..n]);
    } else {
      assert rest + after == rest;
    }
  }

  function DigitChar(d: nat): (c: char)
    requires d < 10
    ensures IsDigit(c) && c as int - '0' as int == d
  {
    ('0' as int + d) as char
  }

  /** The decimal digits of `n`, without leading zeros. */
  function NatToString(n: nat): (s: string)
    ensures IsDigits(s)
    ensures n > 0 ==> s[0] != '0'
    ensures n == 0 ==> s == "0"
    decreases n
  {
    if n < 10 then [DigitChar(n)] else NatToString(n / 10) + [DigitChar(n % 10)]
  }

  /** `str(n)` for an integer, as `format` also renders it. */
  function Str(n: int): (s: string)
    ensures |s| > 0
    ensures forall i :: 0 <= i < |s| ==> IsDigit(s[i]) || s[i] == '-'
    ensures (s[0] == '-') == (n < 0)
    ensures forall i :: 0 < i < |s| ==> IsDigit(s[i])
    ensures n < 0 ==> |s| > 1 && s[1] != '0'
    ensures n > 0 ==> s[0] != '0'
    ensures n == 0 ==> s == "0"
  {
    if n < 0 then "-" + NatToString(-n) else NatToString(n)
  }

  /** `str(n)` never holds a character other than a digit or `-`. */
  lemma StrLacks(n: int, c: char)
    requires !IsDigit(c) && c != '-'
    ensures c !in Str(n)
  {
  }

  lemma {:induction false} NatToStringValue(n: nat)
    ensures DigitsValue(NatToString(n)) == n
    decreases n
  {
    if n >= 10 {
      NatToStringValue(n / 10);
      var s := NatToString(n);
      assert s[..|s| - 1] == NatToString(n / 10);
    }
  }

  /** The sign-and-digits reading of `str(n)` is `n`. */
  lemma SignedRoundTrip(n: int)
    ensures ParseSigned(Str(n)) == Some(n)
  {
    var s := Str(n);
    if n < 0 {
      NatToStringValue(-n);
      assert s[1..] == NatToString(-n);
    } else {
      NatToStringValue(n);
    }
  }

  /** `int(str(n)) == n` for every integer. */
  lemma StrRoundTrip(n: int)
    ensures ParseInt(Str(n)) == Some(n)
  {
    var s := Str(n);
    assert !IsSpace(s[0]) && !IsSpace(s[|s| - 1]);
    SignedRoundTrip(n);
  }

  /** A run of `0` characters. */
  predicate IsZeros(z: string) { forall i :: 0 <= i < |z| ==> z[i] == '0' }

  lemma {:induction false} ZerosValue(z: string)
    requires IsZeros(z)
    ensures DigitsValue(z) == 0
    decreases |z|
  {
    if |z| > 0 {
      ZerosValue(z[..|z| - 1]);
    }
  }

  /** Leading zeros do not change the value of a run of digits. */
  lemma {:induction false} LeadingZerosValue(z: string, d: string)
    requires IsZeros(z)
    requires forall i :: 0 <= i < |d| ==> IsDigit(d[i])
    ensures DigitsValue(z + d) == DigitsValue(d)
    decreases |d|
  {
    if |d| == 0 {
      assert z + d == z;
      ZerosValue(z);
    } else {
      LeadingZerosValue(z, d[..|d| - 1]);
      assert (z + d)[..|z + d| - 1] == z + d[..|d| - 1];
    }
  }

  /** Zeros followed by the digits of `v` are a run of digits worth `v`. */
  lemma ZeroPadded(z: string, v: nat)
    requires IsZeros(z)
    ensures IsDigits(z + NatToString(v)) && DigitsValue(z + NatToString(v)) == v
  {
    LeadingZerosValue(z, NatToString(v));
    NatToStringValue(v);
  }

  /** A run of digits reads as its value. */
  lemma UnsignedDigitsValue(d: string)
    requires IsDigits(d)
    ensures ParseSigned(d) == Some(DigitsValue(d) as int)
  {
    assert !IsSign(d[0]);
  }

  /** A sign before a run of digits negates its value for `-` and keeps it for `+`. */
  lemma SignedDigitsValue(sign: string, d: string)
    requires sign == "+" || sign == "-"
    requires IsDigits(d)
    ensures ParseSigned(sign + d) == Some(if sign == "-" then -(DigitsValue(d) as int) else DigitsValue(d) as int)
  {
    assert (sign + d)[0] == sign[0];
    assert (sign + d)[1..] == d;
  }

  /** An optional sign, any number of leading zeros and the digits of `v` read as `v`,
      negated after `-`: "05", "+5" and "-007" read as 5, 5 and -7. */
  lemma SignedValue(sign: string, z: string, v: nat)
    requires sign == "" || sign == "+" || sign == "-"
    requires IsZeros(z)
    ensures ParseSigned(sign + z + NatToString(v)) == Some(if sign == "-" then -(v as int) else v as int)
  {
    var d := z + NatToString(v);
    ZeroPadded(z, v);
    assert sign + z + NatToString(v) == sign + d;
    if sign == "" {
      assert sign + d == d;
      UnsignedDigitsValue(d);
    } else {
      SignedDigitsValue(sign, d);
    }
  }

  /** The same with whitespace around the number: `int(" +05 ") == 5`. */
  lemma PaddedValue(before: string, sign: string, z: string, v: nat, after: string)
    requires forall i :: 0 <= i < |before| ==> IsSpace(before[i])
    requires forall i :: 0 <= i < |after| ==> IsSpace(after[i])
    requires sign == "" || sign == "+" || sign == "-"
    requires IsZeros(z)
    ensures ParseInt(before + (sign + z + NatToString(v)) + after) == Some(if sign == "-" then -(v as int) else v as int)
  {
    var t := sign + z + NatToString(v);
    SignedValue(sign, z, v);
    assert SignedDigits(t);
    ParseIntPadded(before, t, after);
  }
}
