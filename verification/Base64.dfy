/** Unpadded URL-safe Base64 with a canonicality check (`b64_encode` and `b64_decode` of
    aquilia/signing.py; sections 3.5 and 5 of RFC 4648). */
module Base64 {
  import opened Common

  type Byte = x: int | 0 <= x < 256

  /** The characters `b64_encode` produces. */
  predicate IsAlphabet(c: char) {
    'A' <= c <= 'Z' || 'a' <= c <= 'z' || '0' <= c <= '9' || c == '-' || c == '_'
  }

  function AlphabetChar(i: nat): (c: char)
    requires i < 64
    ensures IsAlphabet(c)
  {
    if i < 26 then (i + 65) as char
    else if i < 52 then (i + 71) as char
    else if i < 62 then (i - 4) as char
    else if i == 62 then '-' else '_'
  }

  /** The decoder's table: both the URL-safe and the standard characters have a value. */
  function Sextet(c: char): (v: Option<nat>)
    ensures v.Some? ==> v.value < 64
  {
    if 'A' <= c <= 'Z' then Some(c as int - 65)
    else if 'a' <= c <= 'z' then Some(c as int - 71)
    else if '0' <= c <= '9' then Some(c as int + 4)
    else if c == '-' || c == '+' then Some(62)
    else if c == '_' || c == '/' then Some(63)
    else None
  }

  // ---- Encoding ----------------------------------------------------------------------------

  /** The two, three or four characters that carry one, two or three bytes. */
  function EncodeOne(a: Byte): (s: string)
    ensures |s| == 2 && forall c :: c in s ==> IsAlphabet(c)
  {
    [AlphabetChar(a / 4), AlphabetChar(a % 4 * 16)]
  }

  function EncodeTwo(a: Byte, b: Byte): (s: string)
    ensures |s| == 3 && forall c :: c in s ==> IsAlphabet(c)
  {
    [AlphabetChar(a / 4), AlphabetChar(a % 4 * 16 + b / 16), AlphabetChar(b % 16 * 4)]
  }

  function EncodeThree(a: Byte, b: Byte, c: Byte): (s: string)
    ensures |s| == 4 && forall c :: c in s ==> IsAlphabet(c)
  {
    [AlphabetChar(a / 4), AlphabetChar(a % 4 * 16 + b / 16), AlphabetChar(b % 16 * 4 + c / 64), AlphabetChar(c % 64)]
  }

  function Encode(x: seq<Byte>): (s: string)
    ensures forall c :: c in s ==> IsAlphabet(c)
  {
    if |x| >= 3 then EncodeThree(x[0], x[1], x[2]) + Encode(x[3..])
    else if |x| == 2 then EncodeTwo(x[0], x[1])
    else if |x| == 1 then EncodeOne(x[0])
    else []
  }

  lemma {:induction false} EncodeLength(x: seq<Byte>)
    ensures |Encode(x)| % 4 == if |x| % 3 == 0 then 0 else |x| % 3 + 1
  {
    hide IsAlphabet, EncodeOne, EncodeTwo, EncodeThree;
    if |x| >= 3 {
      assert |x[3..]| % 3 == |x| % 3;
      EncodeLength(x[3..]);
    }
  }

  // ---- Decoding ----------------------------------------------------------------------------

  /** The lenient decoder underneath: characters outside its table are skipped, leftover bits are
      dropped, and enough padding ends the input. `quad` characters of the current group were read,
      the last of them leaving the bits `left`; `pads` counts padding seen since. */
  function Scan(s: string, quad: nat, left: nat, pads: nat): Option<seq<Byte>>
    requires quad < 4 && left < 64
    requires (quad == 0 ==> left == 0) && (quad == 2 ==> left < 16) && (quad == 3 ==> left < 4)
  {
    if s == [] then (if quad == 0 then Some([]) else None)
    else if s[0] == '=' then
      if quad >= 2 && quad + pads + 1 >= 4 then Some([])
      else Scan(s[1..], quad, left, if quad >= 2 then pads + 1 else pads)
    else
      match Sextet(s[0])
      case None => Scan(s[1..], quad, left, pads)
      case Some(v) =>
        if quad == 0 then Scan(s[1..], 1, v, 0)
        else if quad == 1 then Prepend(left * 4 + v / 16, Scan(s[1..], 2, v % 16, 0))
        else if quad == 2 then Prepend(left * 16 + v / 4, Scan(s[1..], 3, v % 4, 0))
        else Prepend(left * 64 + v, Scan(s[1..], 0, 0, 0))
  }

  function Prepend(b: Byte, rest: Option<seq<Byte>>): Option<seq<Byte>> {
    if rest.None? then None else Some([b] + rest.value)
  }

  function Pads(n: nat): (s: string)
    ensures |s| == n && forall i :: 0 <= i < n ==> s[i] == '='
  {
    seq(n, _ => '=')
  }

  /** `rstrip("=")`. */
  function StripPad(s: string): (r: string)
    ensures r <= s && s == r + Pads(|s| - |r|)
    ensures r != [] ==> r[|r| - 1] != '='
  {
    if s != [] && s[|s| - 1] == '=' then StripPad(s[..|s| - 1]) else s
  }

  predicate IsAscii(s: string) {
    forall c :: c in s ==> c as int < 128
  }

  /** `Malformed` is the library's fault; `NotAscii` the UnicodeEncodeError that escapes it. */
  datatype Decoded = Bytes(data: seq<Byte>) | Malformed | NotAscii

  function Repad(s: string): string {
    if |s| % 4 == 0 then s else s + Pads(4 - |s| % 4)
  }

  function DecodeAscii(s: string): Decoded {
    match Scan(Repad(s), 0, 0, 0)
    case None => Malformed
    case Some(x) => if Encode(x) == StripPad(s) then Bytes(x) else Malformed
  }

  /** `b64_decode` of a str. */
  function Decode(s: string): Decoded {
    if IsAscii(s) then DecodeAscii(s) else NotAscii
  }

  function ToChars(b: seq<Byte>): (s: string)
    ensures |s| == |b| && forall i :: 0 <= i < |b| ==> s[i] == b[i] as char
  {
    seq(|b|, i requires 0 <= i < |b| => b[i] as char)
  }

  /** `b64_decode` of bytes. */
  function DecodeBytes(b: seq<Byte>): Decoded {
    if IsAscii(ToChars(b)) then DecodeAscii(ToChars(b)) else Malformed
  }

  // ---- The canonical form is exactly what decodes ------------------------------------------

  lemma SextetOfChar(i: nat)
    requires i < 64
    ensures Sextet(AlphabetChar(i)) == Some(i) && AlphabetChar(i) != '=' && AlphabetChar(i) as int < 128
  {
  }

  lemma ScanFirst(c: char, rest: string, i: nat, quad: nat, left: nat)
    requires i < 64 && c == AlphabetChar(i)
    requires quad < 4 && left < 64
    requires (quad == 0 ==> left == 0) && (quad == 2 ==> left < 16) && (quad == 3 ==> left < 4)
    ensures Scan([c] + rest, quad, left, 0) ==
      if quad == 0 then Scan(rest, 1, i, 0)
      else if quad == 1 then Prepend(left * 4 + i / 16, Scan(rest, 2, i % 16, 0))
      else if quad == 2 then Prepend(left * 16 + i / 4, Scan(rest, 3, i % 4, 0))
      else Prepend(left * 64 + i, Scan(rest, 0, 0, 0))
  {
    SextetOfChar(i);
    hide AlphabetChar, Sextet;
    assert ([c] + rest)[1..] == rest;
  }

  /** The first two characters of a group carry its first byte. */
  lemma ScanOneByte(a: Byte, low: nat, rest: string)
    requires low < 16
    ensures Scan([AlphabetChar(a / 4), AlphabetChar(a % 4 * 16 + low)] + rest, 0, 0, 0)
         == Prepend(a, Scan(rest, 2, low, 0))
  {
    hide AlphabetChar, Sextet, Scan;
    var c0, c1 := AlphabetChar(a / 4), AlphabetChar(a % 4 * 16 + low);
    assert [c0, c1] + rest == [c0] + ([c1] + rest);
    ScanFirst(c0, [c1] + rest, a / 4, 0, 0);
    ScanFirst(c1, rest, a % 4 * 16 + low, 1, a / 4);
  }

  lemma ScanTwoBytes(a: Byte, b: Byte, low: nat, rest: string)
    requires low < 4
    ensures Scan([AlphabetChar(a / 4), AlphabetChar(a % 4 * 16 + b / 16), AlphabetChar(b % 16 * 4 + low)] + rest,
                 0, 0, 0)
         == Prepend(a, Prepend(b, Scan(rest, 3, low, 0)))
  {
    hide AlphabetChar, Sextet, Scan;
    var c0, c1, c2 := AlphabetChar(a / 4), AlphabetChar(a % 4 * 16 + b / 16), AlphabetChar(b % 16 * 4 + low);
    assert [c0, c1, c2] + rest == [c0, c1] + ([c2] + rest);
    ScanOneByte(a, b / 16, [c2] + rest);
    ScanFirst(c2, rest, b % 16 * 4 + low, 2, b / 16);
  }

  lemma ScanFullGroup(a: Byte, b: Byte, c: Byte, rest: string)
    ensures Scan(EncodeThree(a, b, c) + rest, 0, 0, 0) == Prepend(a, Prepend(b, Prepend(c, Scan(rest, 0, 0, 0))))
  {
    hide AlphabetChar, Sextet, Scan;
    var e := EncodeThree(a, b, c);
    assert e + rest == [e[0], e[1], e[2]] + ([e[3]] + rest);
    ScanTwoBytes(a, b, c / 64, [e[3]] + rest);
    ScanFirst(e[3], rest, c % 64, 3, c / 64);
  }

  lemma {:induction false} ScanPadding(n: nat, quad: nat, left: nat, pads: nat)
    requires quad == 0 || quad == 2 || quad == 3
    requires quad + pads < 4 && quad + pads + n >= (if quad == 0 then 0 else 4)
    requires (quad == 0 ==> left == 0) && (quad == 2 ==> left < 16) && (quad == 3 ==> left < 4)
    ensures Scan(Pads(n), quad, left, pads) == Some([])
  {
    if n > 0 {
      assert Pads(n)[1..] == Pads(n - 1);
      if !(quad >= 2 && quad + pads + 1 >= 4) {
        ScanPadding(n - 1, quad, left, if quad >= 2 then pads + 1 else pads);
      }
    }
  }

  /** The lenient decoder inverts the encoder whenever enough padding follows. */
  lemma {:induction false} ScanInvertsEncode(x: seq<Byte>, n: nat)
    requires |x| % 3 == 1 ==> n >= 2
    requires |x| % 3 == 2 ==> n >= 1
    ensures Scan(Encode(x) + Pads(n), 0, 0, 0) == Some(x)
  {
    hide AlphabetChar, Sextet, Scan, EncodeThree;
    if |x| >= 3 {
      ScanInvertsEncode(x[3..], n);
      ScanFullGroup(x[0], x[1], x[2], Encode(x[3..]) + Pads(n));
      assert Encode(x) + Pads(n) == EncodeThree(x[0], x[1], x[2]) + (Encode(x[3..]) + Pads(n));
      assert [x[0]] + ([x[1]] + ([x[2]] + x[3..])) == x;
    } else if |x| == 2 {
      ScanTwoBytes(x[0], x[1], 0, Pads(n));
      ScanPadding(n, 3, 0, 0);
      assert [x[0]] + ([x[1]] + []) == x;
    } else if |x| == 1 {
      ScanOneByte(x[0], 0, Pads(n));
      ScanPadding(n, 2, 0, 0);
      assert [x[0]] + [] == x;
    } else {
      assert Encode(x) + Pads(n) == Pads(n);
      ScanPadding(n, 0, 0, 0);
    }
  }

  lemma StripPadOfPadded(e: string, k: nat)
    requires e != [] ==> e[|e| - 1] != '='
    ensures StripPad(e + Pads(k)) == e
  {
    if k > 0 {
      assert (e + Pads(k))[..|e| + k - 1] == e + Pads(k - 1);
      StripPadOfPadded(e, k - 1);
    } else {
      assert e + Pads(0) == e;
    }
  }

  lemma AlphabetIsAscii(s: string, k: nat)
    requires forall c :: c in s ==> IsAlphabet(c)
    ensures IsAscii(s + Pads(k))
  {
  }

  /** `b64_decode` returns `x` exactly on the encoding of `x`, give or take trailing `=`; on every other
      ASCII string it raises its own fault, and on a non-ASCII one the error that is not a fault. */
  lemma DecodeExactlyCanonical(s: string, x: seq<Byte>)
    ensures Decode(s) == Bytes(x) <==> StripPad(s) == Encode(x)
    ensures Decode(s).NotAscii? <==> !IsAscii(s)
  {
    hide AlphabetChar, Sextet, Scan, Encode;
    if StripPad(s) == Encode(x) {
      EncodeLength(x);
      var k := |s| - |Encode(x)|;
      assert s == Encode(x) + Pads(k);
      AlphabetIsAscii(Encode(x), k);
      var n := if |s| % 4 == 0 then k else k + 4 - |s| % 4;
      assert Repad(s) == Encode(x) + Pads(n);
      assert (|Encode(x)| + n) % 4 == 0;
      ScanInvertsEncode(x, n);
    }
  }

  /** Round trip for byte strings of every length, with any number of trailing `=` tolerated. */
  lemma DecodeInvertsEncode(x: seq<Byte>, k: nat)
    ensures Decode(Encode(x) + Pads(k)) == Bytes(x)
  {
    var e := Encode(x);
    assert e != [] ==> e[|e| - 1] in e;
    StripPadOfPadded(e, k);
    DecodeExactlyCanonical(e + Pads(k), x);
  }

  lemma EncodeInjective(x: seq<Byte>, y: seq<Byte>)
    requires Encode(x) == Encode(y)
    ensures x == y
  {
    DecodeInvertsEncode(x, 0);
    DecodeInvertsEncode(y, 0);
  }

  /** Why the canonicality check is there: the decoder underneath maps all sixteen fillings of the four
      unused bits to one byte, and only the zero filling is accepted. */
  lemma OnlyZeroFillAccepted(a: Byte, low: nat)
    requires low < 16
    ensures var s := [AlphabetChar(a / 4), AlphabetChar(a % 4 * 16 + low)];
      Scan(s + Pads(2), 0, 0, 0) == Some([a]) && (Decode(s) == Bytes([a]) <==> low == 0)
  {
    var s := [AlphabetChar(a / 4), AlphabetChar(a % 4 * 16 + low)];
    ScanOneByte(a, low, Pads(2));
    ScanPadding(2, 2, low, 0);
    assert [a] + [] == [a];
    assert Encode([a]) == [AlphabetChar(a / 4), AlphabetChar(a % 4 * 16)];
    SextetOfChar(a % 4 * 16 + low);
    SextetOfChar(a % 4 * 16);
    DecodeExactlyCanonical(s, [a]);
    assert s[1] != '=' && StripPad(s) == s;
  }
}
