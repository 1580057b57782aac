/**
  The parts of the Java standard library that the persistence code leans on:
  String.split with a one-character separator, String.trim, Integer.parseInt,
  Integer.toString, long division, Math.floorDiv and String.format with "%s".
 */
module JavaLang {
  import opened Wrappers

  const IntMin: int := -0x8000_0000
  const IntMax: int := 0x7FFF_FFFF

  // ---------------------------------------------------------------------------
  // Splitting on one character

  /** Every piece between occurrences of `sep`, empty pieces included. */
  function SplitAll(s: string, sep: char): (pieces: seq<string>)
    ensures |pieces| >= 1
    ensures forall i :: 0 <= i < |pieces| ==> sep !in pieces[i]
    decreases |s|
  {
    if |s| == 0 then [""]
    else
      var rest := SplitAll(s[1..], sep);
      if s[0] == sep then [""] + rest
      else [[s[0]] + rest[0]] + rest[1..]
  }

  /** Pieces glued back together with `sep` between them. */
  function Join(pieces: seq<string>, sep: char): string
    requires |pieces| >= 1
  {
    if |pieces| == 1 then pieces[0] else pieces[0] + [sep] + Join(pieces[1..], sep)
  }

  lemma {:induction false} JoinSplitAll(s: string, sep: char)
    ensures Join(SplitAll(s, sep), sep) == s
    decreases |s|
  {
    if |s| > 0 {
      var rest := SplitAll(s[1..], sep);
      JoinSplitAll(s[1..], sep);
      if s[0] == sep {
        assert SplitAll(s, sep)[1..] == rest;
        assert s == [s[0]] + s[1..];
      } else {
        var pieces := SplitAll(s, sep);
        assert pieces[1..] == rest[1..];
        if |rest| == 1 {
          assert s == [s[0]] + rest[0];
        } else {
          assert Join(rest, sep) == rest[0] + [sep] + Join(rest[1..], sep);
          assert s == [s[0]] + rest[0] + [sep] + Join(rest[1..], sep);
        }
      }
    }
  }

  lemma {:induction false} SplitAllPiece(p: string, sep: char)
    requires sep !in p
    ensures SplitAll(p, sep) == [p]
    decreases |p|
  {
    if |p| > 0 {
      SplitAllPiece(p[1..], sep);
      assert [p[0]] + p[1..] == p;
    }
  }

  lemma {:induction false} SplitAllCons(p: string, sep: char, rest: string)
    requires sep !in p
    ensures SplitAll(p + [sep] + rest, sep) == [p] + SplitAll(rest, sep)
    decreases |p|
  {
    var s := p + [sep] + rest;
    if |p| == 0 {
      assert s[1..] == rest;
    } else {
      assert s[1..] == p[1..] + [sep] + rest;
      SplitAllCons(p[1..], sep, rest);
      assert [p[0]] + p[1..] == p;
    }
  }

  lemma {:induction false} SplitAllJoin(pieces: seq<string>, sep: char)
    requires |pieces| >= 1
    requires forall i :: 0 <= i < |pieces| ==> sep !in pieces[i]
    ensures SplitAll(Join(pieces, sep), sep) == pieces
    decreases |pieces|
  {
    if |pieces| == 1 {
      SplitAllPiece(pieces[0], sep);
    } else {
      SplitAllJoin(pieces[1..], sep);
      SplitAllCons(pieces[0], sep, Join(pieces[1..], sep));
      assert [pieces[0]] + pieces[1..] == pieces;
    }
  }

  /** Drops the empty pieces at the end. */
  function DropTrailingEmpty(pieces: seq<string>): (kept: seq<string>)
    ensures |kept| <= |pieces| && kept == pieces[..|kept|]
    ensures kept == [] || kept[|kept| - 1] != ""
    ensures forall i :: |kept| <= i < |pieces| ==> pieces[i] == ""
    decreases |pieces|
  {
    if |pieces| > 0 && pieces[|pieces| - 1] == "" then DropTrailingEmpty(pieces[..|pieces| - 1])
    else pieces
  }

  /**
    `s.split(sep)` for a separator that is one ordinary character: when `sep` does
    not occur the string itself, otherwise every piece with the trailing empty
    pieces removed (so the result can even be empty).
   */
  function Split(s: string, sep: char): (pieces: seq<string>)
    ensures forall i :: 0 <= i < |pieces| ==> sep !in pieces[i]
  {
    if sep !in s then [s] else DropTrailingEmpty(SplitAll(s, sep))
  }

  /** What Split keeps and drops, stated against the complete list of pieces. */
  lemma SplitIsTrimmedSplitAll(s: string, sep: char)
    ensures var all := SplitAll(s, sep); var pieces := Split(s, sep);
      && |pieces| <= |all|
      && pieces == all[..|pieces|]
      && (forall i :: |pieces| <= i < |all| ==> all[i] == "")
      && (sep in s ==> pieces == [] || pieces[|pieces| - 1] != "")
      && (sep !in s ==> pieces == [s])
  {
    if sep !in s {
      SplitAllPiece(s, sep);
    }
  }

  /** Two pieces joined by `sep`, the second not empty, split back into the two. */
  lemma SplitTwo(p: string, q: string, sep: char)
    requires sep !in p && sep !in q && q != ""
    ensures Split(p + [sep] + q, sep) == [p, q]
  {
    var s := p + [sep] + q;
    assert s[|p|] == sep;
    SplitAllCons(p, sep, q);
    SplitAllPiece(q, sep);
    assert SplitAll(s, sep) == [p, q];
  }

  /** A trailing `sep` adds only an empty piece, which Split drops. */
  lemma SplitTwoTrailing(p: string, q: string, sep: char)
    requires sep !in p && sep !in q && q != ""
    ensures Split(p + [sep] + q + [sep], sep) == [p, q]
  {
    var s := p + [sep] + q + [sep];
    assert s[|p|] == sep;
    assert s == p + [sep] + (q + [sep] + "");
    SplitAllCons(p, sep, q + [sep] + "");
    SplitAllCons(q, sep, "");
    assert SplitAll(s, sep) == [p, q, ""];
    assert DropTrailingEmpty([p, q, ""]) == DropTrailingEmpty([p, q]);
  }

  lemma SplitOneTrailing(p: string, sep: char)
    requires sep !in p && p != ""
    ensures Split(p + [sep], sep) == [p]
  {
    var s := p + [sep];
    assert s[|p|] == sep;
    assert s == p + [sep] + "";
    SplitAllCons(p, sep, "");
    assert SplitAll(s, sep) == [p, ""];
    assert DropTrailingEmpty([p, ""]) == DropTrailingEmpty([p]);
  }

  /** The text before the first `sep` (all of `s` when there is none). */
  function TextBefore(s: string, sep: char): (p: string)
    ensures sep !in p
    ensures p == s || (|p| < |s| && s[..|p| + 1] == p + [sep])
    decreases |s|
  {
    if |s| == 0 || s[0] == sep then "" else [s[0]] + TextBefore(s[1..], sep)
  }

  lemma {:induction false} SplitAllFirst(s: string, sep: char)
    ensures SplitAll(s, sep)[0] == TextBefore(s, sep)
    decreases |s|
  {
    if |s| > 0 && s[0] != sep {
      SplitAllFirst(s[1..], sep);
    }
  }

  /** The first piece of a non-empty split is the text before the first separator. */
  lemma SplitFirst(s: string, sep: char)
    requires |Split(s, sep)| > 0
    ensures Split(s, sep)[0] == TextBefore(s, sep)
  {
    if sep in s {
      SplitAllFirst(s, sep);
    }
  }

  /** Every piece is empty exactly when the string is nothing but separators. */
  lemma {:induction false} SplitAllEmptyPieces(s: string, sep: char)
    ensures (forall i :: 0 <= i < |SplitAll(s, sep)| ==> SplitAll(s, sep)[i] == "")
      <==> (forall k :: 0 <= k < |s| ==> s[k] == sep)
    decreases |s|
  {
    if |s| > 0 {
      SplitAllEmptyPieces(s[1..], sep);
      var rest := SplitAll(s[1..], sep);
      if s[0] == sep {
        var all := SplitAll(s, sep);
        var t := s[1..];
        assert all == [""] + rest;
        assert (forall i :: 0 <= i < |all| ==> all[i] == "") <==> (forall i :: 0 <= i < |rest| ==> rest[i] == "") by {
          assert forall i :: 1 <= i < |all| ==> all[i] == rest[i - 1];
          assert forall i :: 0 <= i < |rest| ==> rest[i] == all[i + 1];
        }
        assert (forall k :: 0 <= k < |s| ==> s[k] == sep) <==> (forall k :: 0 <= k < |t| ==> t[k] == sep) by {
          assert forall k :: 1 <= k < |s| ==> s[k] == t[k - 1];
          assert forall k :: 0 <= k < |t| ==> t[k] == s[k + 1];
        }
      } else {
        assert SplitAll(s, sep)[0] != "";
      }
    }
  }

  /**
    The split is empty exactly when the string is one or more separators and
    nothing else (then every piece is a trailing empty one).
   */
  lemma SplitEmpty(s: string, sep: char)
    ensures |Split(s, sep)| == 0 <==> |s| > 0 && forall k :: 0 <= k < |s| ==> s[k] == sep
  {
    var all := SplitAll(s, sep);
    SplitAllEmptyPieces(s, sep);
    if sep in s {
      var pieces := DropTrailingEmpty(all);
      if |pieces| == 0 {
        assert forall i :: 0 <= i < |all| ==> all[i] == "";
      }
    } else if |s| > 0 {
      assert s[0] != sep;
    }
  }

  // ---------------------------------------------------------------------------
  // Trimming

  /** Characters that String.trim removes: every code point up to U+0020. */
  predicate IsTrimmed(c: char) {
    c <= ' '
  }

  /** Number of trimmed characters at the start of `s`. */
  function LeadingTrimmed(s: string): (n: nat)
    ensures n <= |s|
    ensures forall k :: 0 <= k < n ==> IsTrimmed(s[k])
    ensures n == |s| || !IsTrimmed(s[n])
    decreases |s|
  {
    if |s| > 0 && IsTrimmed(s[0]) then 1 + LeadingTrimmed(s[1..]) else 0
  }

  /** Number of trimmed characters at the end of `s`. */
  function TrailingTrimmed(s: string): (n: nat)
    ensures n <= |s|
    ensures forall k :: |s| - n <= k < |s| ==> IsTrimmed(s[k])
    ensures n == |s| || !IsTrimmed(s[|s| - n - 1])
    decreases |s|
  {
    if |s| > 0 && IsTrimmed(s[|s| - 1]) then 1 + TrailingTrimmed(s[..|s| - 1]) else 0
  }

  /**
    `s.trim()`: `s` without its leading and trailing trimmed characters; all of
    `s` goes when it holds nothing else.
   */
  function Trim(s: string): (t: string)
    ensures var i := LeadingTrimmed(s);
      && i + |t| <= |s|
      && t == s[i..i + |t|]
      && (forall k :: i + |t| <= k < |s| ==> IsTrimmed(s[k]))
    ensures t == "" || (!IsTrimmed(t[0]) && !IsTrimmed(t[|t| - 1]))
  {
    var i := LeadingTrimmed(s);
    var a := s[i..];
    var t := a[..|a| - TrailingTrimmed(a)];
    assert forall k :: i + |t| <= k < |s| ==> s[k] == a[k - i];
    t
  }

  // ---------------------------------------------------------------------------
  // Decimal numbers

  predicate IsDigit(c: char) {
    '0' <= c <= '9'
  }

  predicate AllDigits(s: string) {
    forall i :: 0 <= i < |s| ==> IsDigit(s[i])
  }

  function DigitChar(d: int): (c: char)
    requires 0 <= d <= 9
    ensures IsDigit(c) && c as int - '0' as int == d
  {
    ('0' as int + d) as char
  }

  /** The number a string of ASCII digits denotes. */
  function DecimalValue(s: string): nat
    requires AllDigits(s)
  {
    if |s| == 0 then 0 else DecimalValue(s[..|s| - 1]) * 10 + (s[|s| - 1] as int - '0' as int)
  }

  /** `Integer.toString(n)` for a non-negative `n`: decimal digits without leading zeros. */
  function NatToDecimal(n: nat): (s: string)
    ensures n < 10 <==> |s| == 1
  {
    if n < 10 then [DigitChar(n)] else NatToDecimal(n / 10) + [DigitChar(n % 10)]
  }

  /** The rendering consists of digits, reads back as `n`, and has no leading zero. */
  lemma {:induction false} NatToDecimalDigits(n: nat)
    ensures var s := NatToDecimal(n);
      && |s| >= 1 && AllDigits(s)
      && DecimalValue(s) == n
      && (s[0] == '0' ==> n == 0)
  {
    if n >= 10 {
      NatToDecimalDigits(n / 10);
      var s := NatToDecimal(n);
      assert s[..|s| - 1] == NatToDecimal(n / 10);
    }
  }

  function Pow10(w: nat): nat {
    if w == 0 then 1 else 10 * Pow10(w - 1)
  }

  /** A number below 10^w takes at most w digits. */
  lemma {:induction false} NatToDecimalLength(n: nat, w: nat)
    requires 1 <= w && n < Pow10(w)
    ensures |NatToDecimal(n)| <= w
    decreases w
  {
    if n >= 10 {
      NatToDecimalLength(n / 10, w - 1);
    }
  }

  /** `Integer.toString(n)`. */
  function IntToString(n: int): string {
    if n < 0 then "-" + NatToDecimal(-n) else NatToDecimal(n)
  }

  /** `s` preceded by '0' characters, one at a time, until it is at least `width` long. */
  function ZeroPad(s: string, width: nat): string
    decreases width - |s|
  {
    if |s| < width then ZeroPad("0" + s, width) else s
  }

  /** The padded text is `s` behind as many '0' characters as make it `width` long, if it was shorter. */
  lemma {:induction false} ZeroPadShape(s: string, width: nat)
    ensures |ZeroPad(s, width)| == if |s| < width then width else |s|
    ensures ZeroPad(s, width)[|ZeroPad(s, width)| - |s|..] == s
    ensures forall i :: 0 <= i < |ZeroPad(s, width)| - |s| ==> ZeroPad(s, width)[i] == '0'
    decreases width - |s|
  {
    if |s| < width {
      var t := "0" + s;
      ZeroPadShape(t, width);
      var p := ZeroPad(t, width);
      assert ZeroPad(s, width) == p;
      assert p[|p| - |s|..] == p[|p| - |t|..][1..];
      assert p[|p| - |t|] == t[0];
    }
  }

  lemma {:induction false} DecimalValueLeadingZeros(z: string, s: string)
    requires AllDigits(s)
    requires forall i :: 0 <= i < |z| ==> z[i] == '0'
    ensures AllDigits(z + s)
    ensures DecimalValue(z + s) == DecimalValue(s)
    decreases |s|
  {
    if |s| == 0 {
      DecimalValueOfZeros(z);
      assert z + s == z;
    } else {
      var w := z + s;
      assert w[..|w| - 1] == z + s[..|s| - 1];
      DecimalValueLeadingZeros(z, s[..|s| - 1]);
    }
  }

  lemma {:induction false} DecimalValueOfZeros(z: string)
    requires forall i :: 0 <= i < |z| ==> z[i] == '0'
    ensures AllDigits(z) && DecimalValue(z) == 0
    decreases |z|
  {
    if |z| > 0 {
      DecimalValueOfZeros(z[..|z| - 1]);
    }
  }

  /**
    `Integer.parseInt(s)`: an optional sign followed by one or more ASCII digits
    whose value fits in 32 bits; None stands for the NumberFormatException.
   */
  function ParseInt(s: string): (r: Option<int>)
    ensures r.Some? ==> IntMin <= r.value <= IntMax
    ensures r.Some? ==> |s| >= 1 && AllDigits(if s[0] == '-' || s[0] == '+' then s[1..] else s)
  {
    if |s| == 0 then None
    else
      var digits := if s[0] == '-' || s[0] == '+' then s[1..] else s;
      if |digits| == 0 || !AllDigits(digits) then None
      else
        var v: int := if s[0] == '-' then 0 - DecimalValue(digits) else DecimalValue(digits);
        if IntMin <= v <= IntMax then Some(v) else None
  }

  /** Integer.parseInt reads back what Integer.toString writes. */
  lemma ParseIntToString(n: int)
    requires IntMin <= n <= IntMax
    ensures ParseInt(IntToString(n)) == Some(n)
  {
    var s := IntToString(n);
    if n < 0 {
      NatToDecimalDigits(-n);
      assert s[1..] == NatToDecimal(-n);
    } else {
      NatToDecimalDigits(n);
    }
  }

  /** A string holding a character that is neither a digit nor a leading sign is rejected. */
  lemma ParseIntRejectsNonDigit(s: string, i: int)
    requires 0 <= i < |s| && !IsDigit(s[i])
    requires i > 0 || (s[0] != '-' && s[0] != '+')
    ensures ParseInt(s) == None
  {
    if |s| > 0 && (s[0] == '-' || s[0] == '+') {
      assert s[1..][i - 1] == s[i];
    }
  }

  // ---------------------------------------------------------------------------
  // Integer division

  /** Java's `/` on long: rounds toward zero. */
  function TruncDiv(a: int, b: int): (q: int)
    requires b > 0
    ensures a >= 0 ==> q >= 0 && q * b <= a < q * b + b
    ensures a < 0 ==> q <= 0 && q * b - b < a <= q * b
  {
    if a >= 0 then a / b else -((-a) / b)
  }

  /** `Math.floorDiv(a, b)`: rounds toward negative infinity. */
  function FloorDiv(a: int, b: int): (q: int)
    requires b > 0
    ensures q * b <= a < q * b + b
  {
    a / b
  }

  // ---------------------------------------------------------------------------
  // Stream.map on a finite stream

  /** `stream.map(f)`: `f` applied to each element, in order. */
  function MapAll<A, B>(f: A --> B, xs: seq<A>): (ys: seq<B>)
    requires forall i :: 0 <= i < |xs| ==> f.requires(xs[i])
    ensures |ys| == |xs|
  {
    if xs == [] then [] else [f(xs[0])] + MapAll(f, xs[1..])
  }

  /** The `k`-th mapped element is `f` of the `k`-th element. */
  lemma {:induction false} MapAllAt<A, B>(f: A --> B, xs: seq<A>, k: nat)
    requires forall i :: 0 <= i < |xs| ==> f.requires(xs[i])
    requires k < |xs|
    ensures MapAll(f, xs)[k] == f(xs[k])
    decreases k
  {
    if k > 0 {
      MapAllAt(f, xs[1..], k - 1);
    }
  }

  // ---------------------------------------------------------------------------
  // String.format restricted to the "%s" and "%%" conversions

  datatype FormatException = MissingFormatArgument | UnknownFormatConversion

  /** Every '%' starts a "%s" or a "%%". */
  predicate WellFormedTemplate(t: string)
    decreases |t|
  {
    if |t| == 0 then true
    else if t[0] != '%' then WellFormedTemplate(t[1..])
    else |t| >= 2 && (t[1] == 's' || t[1] == '%') && WellFormedTemplate(t[2..])
  }

  function Prepend(p: string, r: Result<string, FormatException>): Result<string, FormatException> {
    match r
    case Success(s) => Success(p + s)
    case Failure(e) => Failure(e)
  }

  function Substitute(t: string, args: seq<string>, next: nat): Result<string, FormatException>
    requires WellFormedTemplate(t)
    decreases |t|
  {
    if |t| == 0 then Success("")
    else if t[0] != '%' then Prepend([t[0]], Substitute(t[1..], args, next))
    else if t[1] == '%' then Prepend("%", Substitute(t[2..], args, next))
    else if next < |args| then Prepend(args[next], Substitute(t[2..], args, next + 1))
    else Failure(MissingFormatArgument)
  }

  /**
    `String.format(t, args...)`: the template is checked as a whole first, then
    each "%s" takes the next argument; surplus arguments are ignored.
   */
  function Format(t: string, args: seq<string>): Result<string, FormatException> {
    if !WellFormedTemplate(t) then Failure(UnknownFormatConversion) else Substitute(t, args, 0)
  }

  lemma {:induction false} LiteralPrefix(p: string, rest: string, args: seq<string>, next: nat)
    requires '%' !in p
    ensures WellFormedTemplate(p + rest) == WellFormedTemplate(rest)
    ensures WellFormedTemplate(rest) ==> Substitute(p + rest, args, next) == Prepend(p, Substitute(rest, args, next))
    decreases |p|
  {
    if |p| == 0 {
      assert p + rest == rest;
      if WellFormedTemplate(rest) {
        match Substitute(rest, args, next)
        case Success(s) => assert p + s == s;
        case Failure(e) =>
      }
    } else {
      var t := p + rest;
      assert t[0] == p[0] && t[0] != '%';
      assert t[1..] == p[1..] + rest;
      LiteralPrefix(p[1..], rest, args, next);
      assert WellFormedTemplate(t) == WellFormedTemplate(t[1..]);
      if WellFormedTemplate(rest) {
        assert Substitute(t, args, next) == Prepend([p[0]], Substitute(t[1..], args, next));
        match Substitute(rest, args, next)
        case Success(s) => assert [p[0]] + (p[1..] + s) == p + s;
        case Failure(e) =>
      }
    }
  }

  /** A template of the shape "<a>%s<b>%s" with two arguments is filled in verbatim. */
  lemma FormatTwoStrings(a: string, b: string, x: string, y: string)
    requires '%' !in a && '%' !in b
    ensures Format(a + "%s" + b + "%s", [x, y]) == Success(a + x + b + y)
  {
    var args := [x, y];
    var last := "%s";
    assert WellFormedTemplate(last) && Substitute(last, args, 1) == Success(y) by {
      assert last[0] == '%' && last[1] == 's' && last[2..] == "";
      assert y + "" == y;
    }
    LiteralPrefix(b, last, args, 1);
    var mid := "%s" + (b + last);
    assert mid[2..] == b + last;
    assert WellFormedTemplate(mid);
    assert Substitute(mid, args, 0) == Success(x + (b + y));
    LiteralPrefix(a, mid, args, 0);
    assert a + "%s" + b + "%s" == a + mid;
    assert a + (x + (b + y)) == a + x + b + y;
  }
}
