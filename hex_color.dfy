/**
 * `hex_to_rgb`: a colour written as hexadecimal digits, cut into three
 * equal chunks, each read in base 16 and integer-divided by 255.
 *
 * The module is Python 2 code, so `int(...) / 255` is floor division. For
 * the positive divisor 255, Dafny's Euclidean `/` is floor division too.
 */
module HexColor {
  import opened Wrappers

  /** The exceptions `hex_to_rgb` raises. */
  datatype HexError =
    | ZeroStep                      // `range(0, lv, 0)`: fewer than three characters
    | InvalidLiteral(chunk: string) // `int(chunk, 16)` raised a ValueError

  /** `value.lstrip('#')`: every leading '#' removed, nothing else. */
  function StripHashes(s: string): (r: string)
    ensures |r| <= |s| && r == s[|s| - |r|..]
    ensures forall i :: 0 <= i < |s| - |r| ==> s[i] == '#'
    ensures r == [] || r[0] != '#'
  {
    if s != [] && s[0] == '#' then StripHashes(s[1..]) else s
  }

  // ---------------------------------------------------------------------
  // `int(s, 16)` as Python 2 reads a byte string
  // ---------------------------------------------------------------------

  /** C's isspace in the "C" locale: space, \t, \n, \v, \f, \r. */
  predicate IsSpace(c: char)
  {
    c == ' ' || c == '\t' || c == '\n' || c == '\r' || c as int == 11 || c as int == 12
  }

  function TrimLeft(s: string): (r: string)
    ensures |r| <= |s|
  {
    if s != [] && IsSpace(s[0]) then TrimLeft(s[1..]) else s
  }

  function TrimRight(s: string): (r: string)
    ensures |r| <= |s|
  {
    if s != [] && IsSpace(s[|s| - 1]) then TrimRight(s[..|s| - 1]) else s
  }

  function DigitValue(c: char): Option<nat>
  {
    if '0' <= c <= '9' then Some(c as int - '0' as int)
    else if 'a' <= c <= 'f' then Some(c as int - 'a' as int + 10)
    else if 'A' <= c <= 'F' then Some(c as int - 'A' as int + 10)
    else None
  }

  predicate AllHex(s: string)
  {
    forall i :: 0 <= i < |s| ==> DigitValue(s[i]).Some?
  }

  /** The number the hexadecimal digits `s` stand for, most significant first. */
  function HexValue(s: string): nat
    requires AllHex(s)
  {
    if s == [] then 0 else 16 * HexValue(s[..|s| - 1]) + DigitValue(s[|s| - 1]).value
  }

  /** `int(s, 16)`: surrounding whitespace, then the number itself; anything
      else is a ValueError. */
  function ParseBase16(s: string): Option<int>
  {
    ParseToken(TrimRight(TrimLeft(s)))
  }

  /** An optional sign (whitespace may follow it), then the unsigned part. */
  function ParseToken(t: string): Option<int>
  {
    if t != [] && (t[0] == '-' || t[0] == '+') then
      match ParseUnsigned(TrimLeft(t[1..]))
      case None => None
      case Some(n) =>
        var v: int := n;
        Some(if t[0] == '-' then -v else v)
    else
      match ParseUnsigned(t)
      case None => None
      case Some(n) => Some(n)
  }

  /** An optional "0x" or "0X" prefix and at least one hexadecimal digit. */
  function ParseUnsigned(u: string): Option<nat>
  {
    var d := if |u| >= 2 && u[0] == '0' && (u[1] == 'x' || u[1] == 'X') then u[2..] else u;
    if d != [] && AllHex(d) then Some(HexValue(d)) else None
  }

  // ---------------------------------------------------------------------
  // hex_to_rgb
  // ---------------------------------------------------------------------

  /** `[v[i:i + step] for i in range(0, len(v), step)]` */
  function Chunked(v: string, step: nat): (chunks: seq<string>)
    requires step > 0
    ensures forall i :: 0 <= i < |chunks| ==> 0 < |chunks[i]| <= step
    ensures forall i :: 0 <= i < |chunks| - 1 ==> |chunks[i]| == step
    decreases |v|
  {
    if v == [] then []
    else if |v| <= step then [v]
    else [v[..step]] + Chunked(v[step..], step)
  }

  /** One component: the chunk read in base 16, floor-divided by 255. */
  function Components(chunks: seq<string>): (r: Result<seq<int>, HexError>)
    ensures r.Ok? ==> |r.value| == |chunks|
  {
    if chunks == [] then Ok([])
    else
      match ParseBase16(chunks[0])
      case None => Err(InvalidLiteral(chunks[0]))
      case Some(n) =>
        match Components(chunks[1..])
        case Err(e) => Err(e)
        case Ok(rest) => Ok([n / 255] + rest)
  }

  /** `hex_to_rgb(value)` */
  function HexToRgb(value: string): Result<seq<int>, HexError>
  {
    var v := StripHashes(value);
    var step := |v| / 3;
    if step == 0 then Err(ZeroStep) else Components(Chunked(v, step))
  }

  // ---------------------------------------------------------------------
  // Properties
  // ---------------------------------------------------------------------

  /** The chunks, read back to back, are the digits again. */
  function Concat(chunks: seq<string>): string
  {
    if chunks == [] then "" else chunks[0] + Concat(chunks[1..])
  }

  lemma {:induction false} ChunkedConcat(v: string, step: nat)
    requires step > 0
    ensures Concat(Chunked(v, step)) == v
    decreases |v|
  {
    if |v| > step {
      ChunkedConcat(v[step..], step);
      assert v == v[..step] + v[step..];
    } else if v != [] {
      assert v + "" == v;
    }
  }

  /** Digits whose number is a multiple of the step are cut into that many
      chunks, all of exactly the step's length. */
  lemma {:induction false} ChunkedExact(v: string, step: nat, n: nat)
    requires step > 0 && |v| == n * step
    ensures |Chunked(v, step)| == n
    ensures forall i :: 0 <= i < n ==> |Chunked(v, step)[i]| == step
    decreases n
  {
    if n > 1 {
      assert |v[step..]| == (n - 1) * step;
      ChunkedExact(v[step..], step, n - 1);
    }
  }

  /** The components are read exactly when every chunk reads as a number. */
  lemma {:induction false} ComponentsOkIff(chunks: seq<string>)
    ensures Components(chunks).Ok? <==> forall i :: 0 <= i < |chunks| ==> ParseBase16(chunks[i]).Some?
    decreases |chunks|
  {
    if chunks != [] {
      var rest := chunks[1..];
      ComponentsOkIff(rest);
      assert forall i :: 1 <= i < |chunks| ==> rest[i - 1] == chunks[i];
    }
  }

  /** Component i is chunk i read in base 16 and floor-divided by 255. */
  lemma {:induction false} ComponentsValue(chunks: seq<string>)
    requires Components(chunks).Ok?
    ensures forall i :: 0 <= i < |chunks| ==> ParseBase16(chunks[i]).Some?
    ensures forall i :: 0 <= i < |chunks| ==> Components(chunks).value[i] == ParseBase16(chunks[i]).value / 255
    decreases |chunks|
  {
    if chunks != [] {
      var rest := chunks[1..];
      var n := ParseBase16(chunks[0]).value;
      assert Components(chunks).value == [n / 255] + Components(rest).value;
      ComponentsValue(rest);
      assert forall i :: 1 <= i < |chunks| ==> rest[i - 1] == chunks[i];
    }
  }

  /** Fewer than three characters after the '#'s fail: the range step is 0. */
  lemma ShortValueFails(value: string)
    requires |StripHashes(value)| < 3
    ensures HexToRgb(value) == Err(ZeroStep)
  {
  }

  /** Input whose length is a multiple of three yields three components on success. */
  lemma ThreeComponents(value: string)
    requires |StripHashes(value)| % 3 == 0 && HexToRgb(value).Ok?
    ensures |HexToRgb(value).value| == 3
  {
    var v := StripHashes(value);
    ChunkedExact(v, |v| / 3, 3);
  }

  /** A string of hexadecimal digits, of either case, reads as the number
      it stands for: it has no whitespace, sign or "0x" prefix to skip. */
  lemma ParseHexDigits(s: string)
    requires s != [] && AllHex(s)
    ensures ParseBase16(s) == Some(HexValue(s))
  {
    assert DigitValue(s[0]).Some? && DigitValue(s[|s| - 1]).Some?;
    assert TrimLeft(s) == s;
    assert TrimRight(s) == s;
    if |s| >= 2 {
      assert DigitValue(s[1]).Some?;
    }
  }

  /** `int(s, 16)` skips the surrounding whitespace and reads a minus sign
      in front of the unsigned part. */
  lemma ParseNegative(pre: string, u: string, post: string)
    requires forall i :: 0 <= i < |pre| ==> IsSpace(pre[i])
    requires forall i :: 0 <= i < |post| ==> IsSpace(post[i])
    requires u != [] && !IsSpace(u[0]) && !IsSpace(u[|u| - 1]) && ParseUnsigned(u).Some?
    ensures var n: int := ParseUnsigned(u).value; ParseBase16(pre + (['-'] + u) + post) == Some(-n)
  {
    var core := ['-'] + u;
    assert ParseBase16(pre + core + post) == ParseToken(core) by {
      assert core[0] == '-' && core[|core| - 1] == u[|u| - 1];
      TrimBoth(pre, core, post);
    }
    assert core[1..] == u;
  }

  /** A "0x" prefix in front of hexadecimal digits is dropped. */
  lemma ParsePrefixed(d: string)
    requires d != [] && AllHex(d)
    ensures ParseUnsigned(['0', 'x'] + d) == Some(HexValue(d))
  {
    var u := ['0', 'x'] + d;
    assert u[0] == '0' && u[1] == 'x' && u[2..] == d;
  }

  /** Whitespace around a token that neither starts nor ends in whitespace
      is removed, and nothing else. */
  lemma TrimBoth(pre: string, core: string, post: string)
    requires forall i :: 0 <= i < |pre| ==> IsSpace(pre[i])
    requires forall i :: 0 <= i < |post| ==> IsSpace(post[i])
    requires core != [] && !IsSpace(core[0]) && !IsSpace(core[|core| - 1])
    ensures TrimRight(TrimLeft(pre + core + post)) == core
  {
    assert pre + core + post == pre + (core + post);
    assert (core + post)[0] == core[0];
    TrimSpaces(pre, core + post);
    TrimTrailing(core, post);
  }

  lemma {:induction false} TrimSpaces(pre: string, rest: string)
    requires forall i :: 0 <= i < |pre| ==> IsSpace(pre[i])
    requires rest != [] && !IsSpace(rest[0])
    ensures TrimLeft(pre + rest) == rest
    decreases |pre|
  {
    if pre == [] {
      assert pre + rest == rest;
    } else {
      assert (pre + rest)[1..] == pre[1..] + rest;
      TrimSpaces(pre[1..], rest);
    }
  }

  lemma {:induction false} TrimTrailing(s: string, post: string)
    requires forall i :: 0 <= i < |post| ==> IsSpace(post[i])
    requires s != [] && !IsSpace(s[|s| - 1])
    ensures TrimRight(s + post) == s
    decreases |post|
  {
    if post == [] {
      assert s + post == s;
    } else {
      var shorter := post[..|post| - 1];
      assert (s + post)[..|s + post| - 1] == s + shorter;
      TrimTrailing(s, shorter);
    }
  }

  /** Two hexadecimal digits stand for a number below 256. */
  lemma PairBound(s: string)
    requires |s| == 2 && AllHex(s)
    ensures HexValue(s) == 16 * DigitValue(s[0]).value + DigitValue(s[1]).value
    ensures HexValue(s) < 256
  {
    var first := s[..1];
    assert first[..0] == [] && first[0] == s[0] && s[..|s| - 1] == first;
    assert DigitValue(s[0]).Some? && DigitValue(s[1]).Some?;
    assert HexValue(first) == DigitValue(s[0]).value;
  }

  function HexChar(d: nat): char
    requires d < 16
  {
    if d < 10 then ('0' as int + d) as char else ('a' as int + d - 10) as char
  }

  /** `'%02x' % n` */
  function TwoDigits(n: nat): string
    requires n < 256
  {
    [HexChar(n / 16), HexChar(n % 16)]
  }

  /** Two hexadecimal digits read back in base 16 give the number. */
  lemma TwoDigitsRoundTrip(n: nat)
    requires n < 256
    ensures ParseBase16(TwoDigits(n)) == Some(n)
  {
    var s := TwoDigits(n);
    var hi, lo := n / 16, n % 16;
    assert DigitValue(HexChar(hi)) == Some(hi);
    assert DigitValue(HexChar(lo)) == Some(lo);
    assert AllHex(s);
    PairBound(s);
    ParseHexDigits(s);
  }

  /** A six-digit colour of either case, after any number of '#', gives
      three components: each pair of digits read in base 16 and
      floor-divided by 255, so 1 when the pair is "ff" (any case) and 0
      otherwise. */
  lemma SixDigitColor(hashes: string, s: string)
    requires forall i :: 0 <= i < |hashes| ==> hashes[i] == '#'
    requires |s| == 6 && AllHex(s)
    ensures HexToRgb(hashes + s)
         == Ok([HexValue(s[..2]) / 255, HexValue(s[2..4]) / 255, HexValue(s[4..]) / 255])
    ensures HexValue(s[..2]) / 255 == (if HexValue(s[..2]) == 255 then 1 else 0)
    ensures HexValue(s[2..4]) / 255 == (if HexValue(s[2..4]) == 255 then 1 else 0)
    ensures HexValue(s[4..]) / 255 == (if HexValue(s[4..]) == 255 then 1 else 0)
  {
    var x, y, z := s[..2], s[2..4], s[4..];
    assert AllHex(x) && AllHex(y) && AllHex(z);
    assert HexToRgb(hashes + s) == Components([x, y, z]) by {
      assert DigitValue(s[0]).Some?;
      StripPrefix(hashes, s);
      assert |s| / 3 == 2;
      SixDigitChunks(s);
    }
    ThreePairs(x, y, z);
    PairDivision(x);
    PairDivision(y);
    PairDivision(z);
  }

  /** A pair of hexadecimal digits divided by 255 is 1 for 255 and 0 otherwise. */
  lemma PairDivision(p: string)
    requires |p| == 2 && AllHex(p)
    ensures HexValue(p) / 255 == if HexValue(p) == 255 then 1 else 0
  {
    PairBound(p);
  }

  lemma SixDigitChunks(s: string)
    requires |s| == 6
    ensures Chunked(s, 2) == [s[..2], s[2..4], s[4..]]
  {
    var rest := s[2..];
    assert rest[..2] == s[2..4] && rest[2..] == s[4..];
    assert Chunked(s[4..], 2) == [s[4..]];
    assert Chunked(rest, 2) == [s[2..4], s[4..]];
  }

  /** Three pairs of hexadecimal digits give their values floor-divided by 255. */
  lemma ThreePairs(x: string, y: string, z: string)
    requires |x| == 2 && AllHex(x) && |y| == 2 && AllHex(y) && |z| == 2 && AllHex(z)
    ensures Components([x, y, z]) == Ok([HexValue(x) / 255, HexValue(y) / 255, HexValue(z) / 255])
  {
    var a := HexValue(x) / 255;
    var bc := [HexValue(y) / 255, HexValue(z) / 255];
    assert Components([y, z]) == Ok(bc) by {
      TwoPairs(y, z);
    }
    PairComponent(x, [y, z]);
    assert [x] + [y, z] == [x, y, z] && [a] + bc == [a, bc[0], bc[1]];
  }

  lemma TwoPairs(y: string, z: string)
    requires |y| == 2 && AllHex(y) && |z| == 2 && AllHex(z)
    ensures Components([y, z]) == Ok([HexValue(y) / 255, HexValue(z) / 255])
  {
    var b, c := HexValue(y) / 255, HexValue(z) / 255;
    assert Components([z]) == Ok([c]) by {
      OnePair(z);
    }
    PairComponent(y, [z]);
    assert [y] + [z] == [y, z] && [b] + [c] == [b, c];
  }

  lemma OnePair(z: string)
    requires |z| == 2 && AllHex(z)
    ensures Components([z]) == Ok([HexValue(z) / 255])
  {
    var c := HexValue(z) / 255;
    assert Components([]) == Ok([]);
    PairComponent(z, []);
    assert [z] + [] == [z] && [c] + [] == [c];
  }

  /** A pair of hexadecimal digits contributes its value divided by 255. */
  lemma PairComponent(p: string, rest: seq<string>)
    requires |p| == 2 && AllHex(p) && Components(rest).Ok?
    ensures Components([p] + rest) == Ok([HexValue(p) / 255] + Components(rest).value)
  {
    ParseHexDigits(p);
    ComponentsCons(p, rest, HexValue(p));
  }

  /** A chunk that reads as `n` contributes `n / 255` in front of the rest. */
  lemma ComponentsCons(c: string, rest: seq<string>, n: int)
    requires ParseBase16(c) == Some(n) && Components(rest).Ok?
    ensures Components([c] + rest) == Ok([n / 255] + Components(rest).value)
  {
    assert ([c] + rest)[0] == c && ([c] + rest)[1..] == rest;
  }

  lemma {:induction false} StripPrefix(hashes: string, rest: string)
    requires forall i :: 0 <= i < |hashes| ==> hashes[i] == '#'
    requires rest == [] || rest[0] != '#'
    ensures StripHashes(hashes + rest) == rest
    decreases |hashes|
  {
    if hashes != [] {
      assert (hashes + rest)[1..] == hashes[1..] + rest;
      StripPrefix(hashes[1..], rest);
    } else {
      assert hashes + rest == rest;
    }
  }
}
