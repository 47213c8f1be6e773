/** Character-level helpers shared by the output operators: decimal numerals as
    `operator<<` on an unsigned integer writes them, numbers joined by a separator,
    and lines joined by '\n' — each with the reader that takes it apart again. */
module Texts {
  import opened Wrappers

  predicate IsDigit(c: char)
  {
    '0' <= c <= '9'
  }

  predicate AllDigits(s: seq<char>)
  {
    forall i :: 0 <= i < |s| ==> IsDigit(s[i])
  }

  /** `s` is empty or does not start with a digit, so a numeral before it ends there. */
  predicate NoDigitStart(s: seq<char>)
  {
    s == [] || !IsDigit(s[0])
  }

  function DigitChar(d: nat): (c: char)
    requires d < 10
    ensures IsDigit(c) && c as int - '0' as int == d
  {
    ('0' as int + d) as char
  }

  /** The decimal numeral of `n`, most significant digit first, without leading zeros. */
  function Digits(n: nat): (s: seq<char>)
    ensures |s| >= 1 && AllDigits(s)
    ensures |s| > 1 ==> s[0] != '0'
    decreases n
  {
    if n < 10 then [DigitChar(n)] else Digits(n / 10) + [DigitChar(n % 10)]
  }

  /** The number a string of decimal digits denotes. */
  function ValueOf(s: seq<char>): nat
    requires AllDigits(s)
  {
    if s == [] then 0 else ValueOf(s[..|s| - 1]) * 10 + (s[|s| - 1] as int - '0' as int)
  }

  lemma {:induction false} ValueOfDigits(n: nat)
    ensures ValueOf(Digits(n)) == n
    decreases n
  {
    var s := Digits(n);
    if n >= 10 {
      assert s[..|s| - 1] == Digits(n / 10);
      ValueOfDigits(n / 10);
    }
  }

  /** The longest run of digits at the front of `s`. */
  function DigitPrefix(s: seq<char>): (p: seq<char>)
    ensures p <= s && AllDigits(p)
    ensures |p| < |s| ==> !IsDigit(s[|p|])
  {
    if s == [] || !IsDigit(s[0]) then [] else [s[0]] + DigitPrefix(s[1..])
  }

  lemma DigitPrefixOf(ds: seq<char>, rest: seq<char>)
    requires AllDigits(ds) && NoDigitStart(rest)
    ensures DigitPrefix(ds + rest) == ds
  {
    var s := ds + rest;
    var p := DigitPrefix(s);
    assert forall i :: 0 <= i < |ds| ==> s[i] == ds[i];
    assert forall i :: 0 <= i < |p| ==> p[i] == s[i];
    assert |ds| < |s| ==> s[|ds|] == rest[0];
    assert |p| == |ds|;
    assert p == s[..|p|];
  }

  /** Reads a leading decimal numeral; a string that does not start with a digit is
      rejected. */
  function ReadNat(s: seq<char>): (r: Result<(nat, seq<char>)>)
    ensures r.Err? <==> NoDigitStart(s)
    ensures r.Ok? ==> NoDigitStart(r.value.1) && |r.value.1| < |s|
  {
    var p := DigitPrefix(s);
    if p == [] then Err(InvalidArgument) else Ok((ValueOf(p), s[|p|..]))
  }

  /** A numeral followed by anything that does not start with a digit reads back as
      the number. */
  lemma ReadNatDigits(n: nat, rest: seq<char>)
    requires NoDigitStart(rest)
    ensures ReadNat(Digits(n) + rest) == Ok((n, rest))
  {
    DigitPrefixOf(Digits(n), rest);
    ValueOfDigits(n);
    assert (Digits(n) + rest)[|Digits(n)|..] == rest;
  }

  /** Numerals of `xs` with `sep` between neighbours and nothing around them. */
  function JoinNats(xs: seq<nat>, sep: seq<char>): seq<char>
  {
    if |xs| == 0 then []
    else if |xs| == 1 then Digits(xs[0])
    else Digits(xs[0]) + sep + JoinNats(xs[1..], sep)
  }

  /** Reads `count` numerals separated by `sep`. */
  function ReadNats(s: seq<char>, sep: seq<char>, count: nat): (r: Result<(seq<nat>, seq<char>)>)
    ensures r.Ok? ==> |r.value.0| == count
    decreases count
  {
    if count == 0 then Ok(([], s))
    else
      match ReadNat(s)
      case Err(e) => Err(e)
      case Ok((x, rest)) =>
        if count == 1 then Ok(([x], rest))
        else if sep <= rest then
          match ReadNats(rest[|sep|..], sep, count - 1)
          case Err(e) => Err(e)
          case Ok((ys, tail)) => Ok(([x] + ys, tail))
        else Err(InvalidArgument)
  }

  lemma {:induction false} ReadJoinNats(xs: seq<nat>, sep: seq<char>, rest: seq<char>)
    requires |xs| >= 1 && |sep| >= 1 && !IsDigit(sep[0]) && NoDigitStart(rest)
    ensures ReadNats(JoinNats(xs, sep) + rest, sep, |xs|) == Ok((xs, rest))
    decreases |xs|
  {
    if |xs| == 1 {
      ReadNatDigits(xs[0], rest);
      assert JoinNats(xs, sep) == Digits(xs[0]);
      ReadNatsOne(Digits(xs[0]) + rest, sep, xs[0], rest);
      assert xs == [xs[0]];
      assert ReadNats(JoinNats(xs, sep) + rest, sep, 1) == Ok((xs, rest));
    } else {
      ReadJoinNats(xs[1..], sep, rest);
      ReadJoinNatsCons(xs[0], xs[1..], sep, rest);
      assert [xs[0]] + xs[1..] == xs;
      assert ReadNats(JoinNats(xs, sep) + rest, sep, |xs[1..]| + 1) == Ok((xs, rest));
    }
  }

  /** The step of ReadJoinNats: one more numeral in front of a list that reads back. */
  lemma ReadJoinNatsCons(x: nat, ys: seq<nat>, sep: seq<char>, rest: seq<char>)
    requires |ys| >= 1 && |sep| >= 1 && !IsDigit(sep[0])
    requires ReadNats(JoinNats(ys, sep) + rest, sep, |ys|) == Ok((ys, rest))
    ensures ReadNats(JoinNats([x] + ys, sep) + rest, sep, |ys| + 1) == Ok(([x] + ys, rest))
  {
    var tail := JoinNats(ys, sep) + rest;
    var after := sep + tail;
    var s := JoinNats([x] + ys, sep) + rest;
    JoinNatsCons(x, ys, sep);
    ConcatAssoc(Digits(x), sep, JoinNats(ys, sep), rest);
    ReadNatDigits(x, after);
    assert after[|sep|..] == tail;
    ReadNatsStep(s, sep, |ys|, x, after, tail, ys, rest);
  }

  lemma JoinNatsCons(x: nat, ys: seq<nat>, sep: seq<char>)
    requires |ys| >= 1
    ensures JoinNats([x] + ys, sep) == Digits(x) + sep + JoinNats(ys, sep)
  {
    assert ([x] + ys)[1..] == ys;
  }

  lemma ConcatAssoc(a: seq<char>, b: seq<char>, c: seq<char>, d: seq<char>)
    ensures a + b + c + d == a + (b + (c + d))
  {
  }

  lemma ReadNatsOne(s: seq<char>, sep: seq<char>, x: nat, rest: seq<char>)
    requires ReadNat(s) == Ok((x, rest))
    ensures ReadNats(s, sep, 1) == Ok(([x], rest))
  {
  }

  /** One step of ReadNats: a numeral, the separator, then the remaining numerals. */
  lemma ReadNatsStep(s: seq<char>, sep: seq<char>, m: nat, x: nat, after: seq<char>,
                     next: seq<char>, ys: seq<nat>, tail: seq<char>)
    requires m >= 1 && ReadNat(s) == Ok((x, after)) && sep <= after && after[|sep|..] == next
    requires ReadNats(next, sep, m) == Ok((ys, tail))
    ensures ReadNats(s, sep, m + 1) == Ok(([x] + ys, tail))
  {
  }

  /** Strips the literal `lit` from the front of `s`. */
  function Expect(s: seq<char>, lit: seq<char>): (r: Result<seq<char>>)
    ensures r.Ok? <==> lit <= s
    ensures r.Ok? ==> lit + r.value == s
  {
    if lit <= s then Ok(s[|lit|..]) else Err(InvalidArgument)
  }

  /** `{x0, x1, ...}`: the list form the output operators write. */
  function Braced(xs: seq<nat>): (s: seq<char>)
    ensures |s| >= 2 && s[0] == '{' && s[|s| - 1] == '}'
  {
    "{" + JoinNats(xs, ", ") + "}"
  }

  /** Reads a braced list of `count` numbers. */
  function ReadBraced(s: seq<char>, count: nat): (r: Result<(seq<nat>, seq<char>)>)
    ensures r.Ok? ==> |r.value.0| == count
  {
    match Expect(s, "{")
    case Err(e) => Err(e)
    case Ok(inner) =>
      match ReadNats(inner, ", ", count)
      case Err(e) => Err(e)
      case Ok((xs, tail)) =>
        match Expect(tail, "}")
        case Err(e) => Err(e)
        case Ok(rest) => Ok((xs, rest))
  }

  lemma BracedRoundTrip(xs: seq<nat>, rest: seq<char>)
    requires |xs| >= 1
    ensures ReadBraced(Braced(xs) + rest, |xs|) == Ok((xs, rest))
  {
    var s := Braced(xs) + rest;
    assert s == "{" + (JoinNats(xs, ", ") + ("}" + rest));
    ReadJoinNats(xs, ", ", "}" + rest);
    assert Expect(s, "{") == Ok(JoinNats(xs, ", ") + ("}" + rest));
    assert Expect("}" + rest, "}") == Ok(rest);
  }

  /** `rows` with '\n' between neighbours. */
  function JoinLines(rows: seq<seq<char>>): seq<char>
  {
    if |rows| == 0 then []
    else if |rows| == 1 then rows[0]
    else rows[0] + "\n" + JoinLines(rows[1..])
  }

  /** The position of the first '\n' in `s`, or `|s|` when there is none. */
  function LineEnd(s: seq<char>): (i: nat)
    ensures i <= |s| && '\n' !in s[..i]
    ensures i < |s| ==> s[i] == '\n'
  {
    if s == [] || s[0] == '\n' then 0
    else
      assert s[1..][..LineEnd(s[1..])] == s[1..1 + LineEnd(s[1..])];
      1 + LineEnd(s[1..])
  }

  /** The pieces of `s` between '\n' characters. */
  function SplitLines(s: seq<char>): (rows: seq<seq<char>>)
    ensures |rows| >= 1
    decreases |s|
  {
    var i := LineEnd(s);
    if i == |s| then [s] else [s[..i]] + SplitLines(s[i + 1..])
  }

  lemma {:induction false} LineEndOf(row: seq<char>, rest: seq<char>)
    requires '\n' !in row && (rest == [] || rest[0] == '\n')
    ensures LineEnd(row + rest) == |row|
  {
    if row != [] {
      assert row[0] in row;
      assert (row + rest)[1..] == row[1..] + rest;
      assert forall c :: c in row[1..] ==> c in row;
      LineEndOf(row[1..], rest);
    }
  }

  /** Splitting at '\n' undoes joining rows that hold no '\n' themselves. */
  lemma {:induction false} SplitJoinLines(rows: seq<seq<char>>)
    requires |rows| >= 1
    requires forall k :: 0 <= k < |rows| ==> '\n' !in rows[k]
    ensures SplitLines(JoinLines(rows)) == rows
    decreases |rows|
  {
    if |rows| == 1 {
      LineEndOf(rows[0], []);
      assert rows[0] + [] == rows[0];
    } else {
      var rest := JoinLines(rows[1..]);
      var s := JoinLines(rows);
      assert s == rows[0] + ("\n" + rest);
      LineEndOf(rows[0], "\n" + rest);
      assert s[..|rows[0]|] == rows[0];
      assert s[|rows[0]| + 1..] == rest;
      assert SplitLines(s) == [rows[0]] + SplitLines(rest);
      SplitJoinLines(rows[1..]);
      assert [rows[0]] + rows[1..] == rows;
    }
  }
}
