/** String helpers shared by the printers and the vocabulary scripts:
    Python's `str.split(sep)`, `str.split()`, `sep.join`, ASCII
    lower-casing and the decimal rendering Java's `StringBuilder.append(int)`
    produces. Strings are `seq<char>`. */
module Text {
  import opened Results

  /** `sep.join(xs)`, also the "element, separator, ..., element" loop of the
      Java printers. */
  function Join(xs: seq<string>, sep: char): string
  {
    if |xs| == 0 then ""
    else if |xs| == 1 then xs[0]
    else xs[0] + [sep] + Join(xs[1..], sep)
  }

  /** A joined line starts with its first element, followed by the
      separator when more elements come, and ends with its last element. */
  lemma {:induction false} JoinEnds(xs: seq<string>, sep: char)
    ensures |xs| == 0 ==> Join(xs, sep) == ""
    ensures |xs| > 0 ==> var r := Join(xs, sep);
      |xs[0]| <= |r| && r[..|xs[0]|] == xs[0]
    ensures |xs| > 1 ==> var r := Join(xs, sep);
      |xs[0]| < |r| && r[|xs[0]|] == sep
    ensures |xs| > 0 ==> var r := Join(xs, sep);
      |xs[|xs| - 1]| <= |r| && r[|r| - |xs[|xs| - 1]|..] == xs[|xs| - 1]
  {
    if |xs| > 1 {
      JoinEnds(xs[1..], sep);
      var r := Join(xs, sep);
      var t := Join(xs[1..], sep);
      assert r == xs[0] + [sep] + t;
      assert r[..|xs[0]|] == xs[0];
      assert xs[1..][|xs[1..]| - 1] == xs[|xs| - 1];
      assert r[|r| - |xs[|xs| - 1]|..] == t[|t| - |xs[|xs| - 1]|..];
    }
  }

  /** Python's `s.split(sep)` for a one-character separator: always at least
      one piece, empty pieces kept, no piece contains the separator. */
  function SplitOn(s: string, sep: char): (r: seq<string>)
    ensures |r| >= 1
    ensures forall i :: 0 <= i < |r| ==> sep !in r[i]
    ensures |r| == 1 + Occurrences(s, sep)
  {
    if |s| == 0 then [""]
    else
      var rest := SplitOn(s[1..], sep);
      if s[0] == sep then [""] + rest
      else [[s[0]] + rest[0]] + rest[1..]
  }

  /** Number of positions of `s` holding `c`. */
  function Occurrences(s: string, c: char): nat
  {
    if |s| == 0 then 0 else (if s[0] == c then 1 else 0) + Occurrences(s[1..], c)
  }

  /** Splitting and re-joining on the same separator gives the string back. */
  lemma {:induction false} JoinSplitOn(s: string, sep: char)
    ensures Join(SplitOn(s, sep), sep) == s
  {
    if |s| > 0 {
      JoinSplitOn(s[1..], sep);
      var rest := SplitOn(s[1..], sep);
      if s[0] == sep {
        assert SplitOn(s, sep) == [""] + rest;
        assert Join([""] + rest, sep) == "" + [sep] + Join(rest, sep);
        assert s == [s[0]] + s[1..];
      } else {
        JoinConsHead(s[0], rest, sep);
        assert s == [s[0]] + s[1..];
      }
    }
  }

  /** Prepending a character to the first piece prepends it to the join. */
  lemma JoinConsHead(c: char, xs: seq<string>, sep: char)
    requires |xs| >= 1
    ensures Join([[c] + xs[0]] + xs[1..], sep) == [c] + Join(xs, sep)
  {
    var ys := [[c] + xs[0]] + xs[1..];
    assert ys[1..] == xs[1..];
  }

  /** A separator-free prefix followed by a separator becomes one piece. */
  lemma {:induction false} SplitOnPiece(a: string, sep: char, rest: string)
    requires sep !in a
    ensures SplitOn(a + [sep] + rest, sep) == [a] + SplitOn(rest, sep)
  {
    if |a| == 0 {
      assert a + [sep] + rest == [sep] + rest;
      assert ([sep] + rest)[1..] == rest;
    } else {
      var s := a + [sep] + rest;
      assert s[1..] == a[1..] + [sep] + rest;
      SplitOnPiece(a[1..], sep, rest);
      assert [a[0]] + a[1..] == a;
    }
  }

  /** A string without the separator is a single piece. */
  lemma {:induction false} SplitOnSingle(a: string, sep: char)
    requires sep !in a
    ensures SplitOn(a, sep) == [a]
  {
    if |a| > 0 {
      SplitOnSingle(a[1..], sep);
      assert [a[0]] + a[1..] == a;
    }
  }

  /** Joining separator-free pieces and splitting again recovers the pieces. */
  lemma {:induction false} SplitOnJoin(xs: seq<string>, sep: char)
    requires |xs| >= 1
    requires forall i :: 0 <= i < |xs| ==> sep !in xs[i]
    ensures SplitOn(Join(xs, sep), sep) == xs
  {
    if |xs| == 1 {
      SplitOnSingle(xs[0], sep);
    } else {
      SplitOnJoin(xs[1..], sep);
      SplitOnPiece(xs[0], sep, Join(xs[1..], sep));
      assert [xs[0]] + xs[1..] == xs;
    }
  }

  /** The characters Python's argument-less `str.split()` treats as
      whitespace. */
  predicate IsSpace(c: char)
  {
    var k := c as int;
    || (9 <= k <= 13) || (28 <= k <= 32) || k == 0x85 || k == 0xA0 || k == 0x1680
    || (0x2000 <= k <= 0x200A) || k == 0x2028 || k == 0x2029 || k == 0x202F
    || k == 0x205F || k == 0x3000
  }

  predicate HasNoSpace(s: string)
  {
    forall i :: 0 <= i < |s| ==> !IsSpace(s[i])
  }

  /** The characters of `s` that are not whitespace, in order. */
  function Squeeze(s: string): string
  {
    if |s| == 0 then "" else (if IsSpace(s[0]) then "" else [s[0]]) + Squeeze(s[1..])
  }

  function Concat(xs: seq<string>): string
  {
    if |xs| == 0 then "" else xs[0] + Concat(xs[1..])
  }

  /** Python's `s.split()`: the maximal runs of non-whitespace characters.
      Every piece is non-empty and whitespace-free. */
  function SplitWhitespace(s: string): (r: seq<string>)
    ensures forall i :: 0 <= i < |r| ==> |r[i]| > 0 && HasNoSpace(r[i])
    ensures |s| > 0 && !IsSpace(s[0]) ==> |r| > 0 && r[0][0] == s[0]
  {
    if |s| == 0 then []
    else
      var rest := SplitWhitespace(s[1..]);
      if IsSpace(s[0]) then rest
      else if |s| > 1 && !IsSpace(s[1]) then [[s[0]] + rest[0]] + rest[1..]
      else [[s[0]]] + rest
  }

  /** Together the pieces of `s.split()` hold exactly the non-whitespace
      characters of `s`, in order. */
  lemma {:induction false} SplitWhitespaceSqueeze(s: string)
    ensures Concat(SplitWhitespace(s)) == Squeeze(s)
  {
    if |s| > 0 {
      var r := SplitWhitespace(s);
      var rest := SplitWhitespace(s[1..]);
      SplitWhitespaceSqueeze(s[1..]);
      if IsSpace(s[0]) {
        assert r == rest;
        assert Squeeze(s) == Squeeze(s[1..]);
      } else if |s| > 1 && !IsSpace(s[1]) {
        assert r == [[s[0]] + rest[0]] + rest[1..];
        assert r[1..] == rest[1..];
        assert Concat(rest) == rest[0] + Concat(rest[1..]);
        assert Concat(r) == ([s[0]] + rest[0]) + Concat(rest[1..]);
        assert Squeeze(s) == [s[0]] + Squeeze(s[1..]);
      } else {
        assert r == [[s[0]]] + rest;
        assert r[1..] == rest;
        assert Concat(r) == [s[0]] + Concat(rest);
        assert Squeeze(s) == [s[0]] + Squeeze(s[1..]);
      }
    }
  }

  /** These three facts pin `SplitWhitespace` down to Python's
      `str.split()`: nothing splits to no pieces, a whitespace-free run is
      one piece, and a whitespace character separates the pieces on its
      left from those on its right. */
  lemma SplitWhitespaceEmpty()
    ensures SplitWhitespace("") == []
  {
  }

  lemma {:induction false} SplitWhitespaceRun(s: string)
    requires |s| > 0 && HasNoSpace(s)
    ensures SplitWhitespace(s) == [s]
  {
    if |s| > 1 {
      SplitWhitespaceRun(s[1..]);
      assert !IsSpace(s[0]) && !IsSpace(s[1]);
      assert [s[0]] + s[1..] == s;
    } else {
      assert SplitWhitespace(s[1..]) == [];
      assert [s[0]] == s;
    }
  }

  lemma {:induction false} SplitWhitespaceAtSpace(a: string, c: char, b: string)
    requires IsSpace(c)
    ensures SplitWhitespace(a + [c] + b) == SplitWhitespace(a) + SplitWhitespace(b)
  {
    var s := a + [c] + b;
    if |a| == 0 {
      assert s == [c] + b;
      assert s[1..] == b;
    } else {
      SplitWhitespaceAtSpace(a[1..], c, b);
      if IsSpace(a[0]) {
        AtSpaceAfterSpace(a, c, b);
      } else if |a| > 1 && !IsSpace(a[1]) {
        AtSpaceInsideRun(a, c, b);
      } else {
        AtSpaceAfterRun(a, c, b);
      }
    }
  }

  /** One step of `SplitWhitespace` when `s` starts with whitespace. */
  lemma UnfoldAtSpace(s: string)
    requires |s| > 0 && IsSpace(s[0])
    ensures SplitWhitespace(s) == SplitWhitespace(s[1..])
  { }

  /** One step when the first character of `s` is a piece of its own. */
  lemma UnfoldAlone(s: string)
    requires |s| > 0 && !IsSpace(s[0]) && (|s| == 1 || IsSpace(s[1]))
    ensures SplitWhitespace(s) == [[s[0]]] + SplitWhitespace(s[1..])
  { }

  /** One step when the first character of `s` continues into the next one. */
  lemma UnfoldJoin(s: string)
    requires |s| > 1 && !IsSpace(s[0]) && !IsSpace(s[1])
    ensures var rest := SplitWhitespace(s[1..]);
      |rest| > 0 && SplitWhitespace(s) == [[s[0]] + rest[0]] + rest[1..]
  { }

  /** Where the first two characters of `a + [c] + b` come from. */
  lemma ConsFacts(a: string, c: char, b: string)
    requires |a| > 0
    ensures var s := a + [c] + b;
      |s| > 1 && s[0] == a[0] && s[1..] == a[1..] + [c] + b
      && s[1] == (if |a| > 1 then a[1] else c)
  { }

  /** The step of `SplitWhitespaceAtSpace` when `a` starts with whitespace. */
  lemma AtSpaceAfterSpace(a: string, c: char, b: string)
    requires |a| > 0 && IsSpace(a[0]) && IsSpace(c)
    requires SplitWhitespace(a[1..] + [c] + b) == SplitWhitespace(a[1..]) + SplitWhitespace(b)
    ensures SplitWhitespace(a + [c] + b) == SplitWhitespace(a) + SplitWhitespace(b)
  {
    ConsFacts(a, c, b);
    UnfoldAtSpace(a + [c] + b);
    UnfoldAtSpace(a);
  }

  /** The step when `a`'s first character continues into the next one. */
  lemma AtSpaceInsideRun(a: string, c: char, b: string)
    requires |a| > 1 && !IsSpace(a[0]) && !IsSpace(a[1]) && IsSpace(c)
    requires SplitWhitespace(a[1..] + [c] + b) == SplitWhitespace(a[1..]) + SplitWhitespace(b)
    ensures SplitWhitespace(a + [c] + b) == SplitWhitespace(a) + SplitWhitespace(b)
  {
    ConsFacts(a, c, b);
    UnfoldJoin(a + [c] + b);
    UnfoldJoin(a);
    JoinAlgebra(a[0], SplitWhitespace(a[1..]), SplitWhitespace(b));
  }

  /** The step when `a`'s first character is a piece of its own. */
  lemma AtSpaceAfterRun(a: string, c: char, b: string)
    requires |a| > 0 && !IsSpace(a[0]) && (|a| == 1 || IsSpace(a[1])) && IsSpace(c)
    requires SplitWhitespace(a[1..] + [c] + b) == SplitWhitespace(a[1..]) + SplitWhitespace(b)
    ensures SplitWhitespace(a + [c] + b) == SplitWhitespace(a) + SplitWhitespace(b)
  {
    ConsFacts(a, c, b);
    UnfoldAlone(a + [c] + b);
    UnfoldAlone(a);
    AloneAlgebra(a[0], SplitWhitespace(a[1..]), SplitWhitespace(b));
  }

  /** Gluing a character onto the first piece commutes with appending `y`. */
  lemma JoinAlgebra(h: char, x: seq<string>, y: seq<string>)
    requires |x| > 0
    ensures var xy := x + y;
      [[h] + xy[0]] + xy[1..] == ([[h] + x[0]] + x[1..]) + y
  {
    assert (x + y)[0] == x[0];
    assert (x + y)[1..] == x[1..] + y;
  }

  /** Prepending a one-character piece commutes with appending `y`. */
  lemma AloneAlgebra(h: char, x: seq<string>, y: seq<string>)
    ensures [[h]] + (x + y) == ([[h]] + x) + y
  { }

  /** Every character of a piece of `s.split()` is a character of `s`. */
  lemma {:induction false} SplitWhitespaceFrom(s: string, i: int, k: int)
    requires 0 <= i < |SplitWhitespace(s)| && 0 <= k < |SplitWhitespace(s)[i]|
    ensures SplitWhitespace(s)[i][k] in s
    decreases |s|, 1
  {
    if IsSpace(s[0]) {
      SplitWhitespaceFrom(s[1..], i, k);
    } else if |s| > 1 && !IsSpace(s[1]) {
      SplitWhitespaceFromMerged(s, i, k);
    } else {
      SplitWhitespaceFromAlone(s, i, k);
    }
  }

  /** The case where the first character starts the first piece of the
      rest's split. */
  lemma {:induction false} SplitWhitespaceFromMerged(s: string, i: int, k: int)
    requires |s| > 1 && !IsSpace(s[0]) && !IsSpace(s[1])
    requires 0 <= i < |SplitWhitespace(s)| && 0 <= k < |SplitWhitespace(s)[i]|
    ensures SplitWhitespace(s)[i][k] in s
    decreases |s|, 0
  {
    var r := SplitWhitespace(s);
    var rest := SplitWhitespace(s[1..]);
    assert r == [[s[0]] + rest[0]] + rest[1..];
    if i == 0 && k == 0 {
      assert r[0][0] == s[0];
    } else if i == 0 {
      assert r[0][k] == rest[0][k - 1];
      SplitWhitespaceFrom(s[1..], 0, k - 1);
    } else {
      assert r[i] == rest[i];
      SplitWhitespaceFrom(s[1..], i, k);
    }
  }

  /** The case where the first character is a piece of its own. */
  lemma {:induction false} SplitWhitespaceFromAlone(s: string, i: int, k: int)
    requires |s| > 0 && !IsSpace(s[0]) && (|s| == 1 || IsSpace(s[1]))
    requires 0 <= i < |SplitWhitespace(s)| && 0 <= k < |SplitWhitespace(s)[i]|
    ensures SplitWhitespace(s)[i][k] in s
    decreases |s|, 0
  {
    var r := SplitWhitespace(s);
    var rest := SplitWhitespace(s[1..]);
    assert r == [[s[0]]] + rest;
    if i == 0 {
      assert r[0][0] == s[0];
    } else {
      assert r[i] == rest[i - 1];
      SplitWhitespaceFrom(s[1..], i - 1, k);
    }
  }

  predicate IsUpper(c: char)
  {
    'A' <= c <= 'Z'
  }

  /** ASCII lower-casing of one character. */
  function LowerChar(c: char): (r: char)
    ensures !IsUpper(r)
    ensures IsUpper(c) ==> r as int == c as int + 32
    ensures !IsUpper(c) ==> r == c
  {
    if IsUpper(c) then (c as int + 32) as char else c
  }

  /** `s.lower()` restricted to ASCII letters. */
  function Lower(s: string): (r: string)
    ensures |r| == |s|
    ensures forall i :: 0 <= i < |s| ==> r[i] == LowerChar(s[i])
  {
    if |s| == 0 then "" else [LowerChar(s[0])] + Lower(s[1..])
  }

  predicate IsDigit(c: char)
  {
    '0' <= c <= '9'
  }

  function DigitChar(d: nat): char
    requires d < 10
  {
    ('0' as int + d) as char
  }

  /** Decimal rendering of a natural number, most significant digit first,
      no leading zeros. */
  function NatToString(n: nat): (r: string)
    ensures |r| > 0
    ensures forall i :: 0 <= i < |r| ==> IsDigit(r[i])
    ensures n > 0 ==> r[0] != '0'
  {
    if n < 10 then [DigitChar(n)] else NatToString(n / 10) + [DigitChar(n % 10)]
  }

  /** Java's rendering of an `int` when appended to a `StringBuilder`. */
  function IntToString(i: int): (r: string)
    ensures |r| > 0
    ensures ' ' !in r && '\n' !in r
  {
    if i < 0 then "-" + NatToString(-i) else NatToString(i)
  }

  /** Reads back a non-empty string of decimal digits. */
  function ParseDigits(s: string): (r: Option<nat>)
    ensures r.Some? <==> |s| > 0 && forall i :: 0 <= i < |s| ==> IsDigit(s[i])
  {
    if |s| == 0 then None
    else if !IsDigit(s[|s| - 1]) then None
    else if |s| == 1 then Some(s[0] as int - '0' as int)
    else match ParseDigits(s[..|s| - 1])
      case None => None
      case Some(v) => Some(10 * v + (s[|s| - 1] as int - '0' as int))
  }

  /** Reads back an optionally `-`-signed decimal integer. */
  function ParseInt(s: string): Option<int>
  {
    if |s| > 0 && s[0] == '-' then
      match ParseDigits(s[1..])
      case None => None
      case Some(v) => Some(0 - v as int)
    else
      match ParseDigits(s)
      case None => None
      case Some(v) => Some(v)
  }

  lemma {:induction false} ParseNatToString(n: nat)
    ensures ParseDigits(NatToString(n)) == Some(n)
  {
    if n >= 10 {
      var s := NatToString(n);
      ParseNatToString(n / 10);
      assert s[..|s| - 1] == NatToString(n / 10);
    }
  }

  /** Every integer printed in decimal reads back as itself. */
  lemma ParseIntToString(i: int)
    ensures ParseInt(IntToString(i)) == Some(i)
  {
    var s := IntToString(i);
    if i < 0 {
      ParseNatToString(-i);
      assert s[0] == '-' && s[1..] == NatToString(-i);
    } else {
      ParseNatToString(i);
      assert s == NatToString(i);
      assert IsDigit(s[0]);
    }
  }
}
