/** Signed tokens (`Signer`, `TimestampSigner`, `RotatingSigner`, `dumps` and `loads` of
    aquilia/signing.py). The MAC is any function; UTF-8, JSON and zlib are abstract codecs. */
module Signing {
  import opened Common
  import opened Base64

  datatype Fault = ConfigInvalid | MalformedToken | BadSignature | Expired | UnicodeError | StructError | ZlibError

  datatype Result<+T> = Ok(value: T) | Err(fault: Fault)

  type Mac = seq<Byte> -> seq<Byte>

  /** UTF-8, with decoding failing on anything that is not an encoding. */
  datatype Text = Text(encode: string -> seq<Byte>, decode: seq<Byte> -> Option<string>)

  ghost predicate LawfulText(text: Text) {
    && (forall s :: text.decode(text.encode(s)) == Some(s))
    && (forall c: char :: c as int < 128 ==> text.encode([c]) == [c as int])
    && (forall c: char :: c as int >= 128 ==> text.encode([c]) != [] && forall b :: b in text.encode([c]) ==> b >= 128)
  }

  // ---- Searching for a separator -----------------------------------------------------------

  predicate MatchAt<T(==)>(s: seq<T>, sep: seq<T>, i: int) {
    0 <= i && i + |sep| <= |s| && s[i..i + |sep|] == sep
  }

  ghost predicate Contains<T>(s: seq<T>, sep: seq<T>) {
    exists i :: MatchAt(s, sep, i)
  }

  /** `rfind` among the positions up to `i`. */
  function RFindUpTo<T(==)>(s: seq<T>, sep: seq<T>, i: nat): (r: Option<nat>)
    ensures r.Some? ==> r.value <= i && MatchAt(s, sep, r.value)
    ensures forall j :: (if r.Some? then r.value < j <= i else 0 <= j <= i) ==> !MatchAt(s, sep, j)
  {
    if MatchAt(s, sep, i) then Some(i) else if i == 0 then None else RFindUpTo(s, sep, i - 1)
  }

  function RFind<T(==)>(s: seq<T>, sep: seq<T>): (r: Option<nat>)
    ensures r.None? <==> !Contains(s, sep)
    ensures r.Some? ==> MatchAt(s, sep, r.value) && forall j :: j > r.value ==> !MatchAt(s, sep, j)
  {
    RFindUpTo(s, sep, |s|)
  }

  lemma {:induction false} LastOutside<T>(sep: seq<T>, inTail: T -> bool) returns (j: nat)
    requires exists i :: 0 <= i < |sep| && !inTail(sep[i])
    ensures j < |sep| && !inTail(sep[j]) && forall i :: j < i < |sep| ==> inTail(sep[i])
  {
    if !inTail(sep[|sep| - 1]) {
      j := |sep| - 1;
    } else {
      j := LastOutside(sep[..|sep| - 1], inTail);
    }
  }

  /** A separator with an element that the tail never has is found exactly where it was put. */
  lemma LastOccurrence<T>(v: seq<T>, sep: seq<T>, tail: seq<T>, inTail: T -> bool)
    requires exists j :: 0 <= j < |sep| && !inTail(sep[j])
    requires forall x :: x in tail ==> inTail(x)
    ensures RFind(v + sep + tail, sep) == Some(|v|)
  {
    var t := v + sep + tail;
    assert MatchAt(t, sep, |v|);
    var j := LastOutside(sep, inTail);
    forall p | p > |v|
      ensures !MatchAt(t, sep, p)
    {
      if p + |sep| <= |t| {
        assert t[p..p + |sep|][j] == t[p + j];
        assert t[p + j] == if p + j < |v| + |sep| then sep[p + j - |v|] else tail[p + j - |v| - |sep|];
      }
    }
  }

  // ---- Signer ------------------------------------------------------------------------------

  /** The upper-case letters, the lower-case letters, the digits, then "-_=". */
  function Rejected(): (s: string)
    ensures |s| == 65 && s[64] == '=' && forall i :: 0 <= i < 64 ==> s[i] == AlphabetChar(i)
  {
    seq(64, i requires 0 <= i < 64 => AlphabetChar(i)) + "="
  }

  datatype Signer = Signer(sep: string, mac: Mac, text: Text)

  /** The constructor's separator check is a substring test. */
  ghost function MakeSigner(sep: string, mac: Mac, text: Text): (r: Result<Signer>) {
    if Contains(Rejected(), sep) then Err(ConfigInvalid) else Ok(Signer(sep, mac, text))
  }

  function SignatureOf(s: Signer, value: string): string {
    Encode(s.mac(s.text.encode(value)))
  }

  function Sign(s: Signer, value: string): Result<string> {
    if RFind(value, s.sep).Some? then Err(MalformedToken) else Ok(value + s.sep + SignatureOf(s, value))
  }

  function Unsign(s: Signer, token: string): Result<string> {
    match RFind(token, s.sep)
    case None => Err(MalformedToken)
    case Some(p) =>
      var value := token[..p];
      match Decode(token[p + |s.sep|..])
      case Malformed => Err(BadSignature)
      case NotAscii => Err(UnicodeError)
      case Bytes(sig) => if s.mac(s.text.encode(value)) == sig then Ok(value) else Err(BadSignature)
  }

  /** A character that neither a signature nor tolerated padding can contain. */
  predicate IsForeign(c: char) {
    !IsAlphabet(c) && c != '='
  }

  ghost predicate ForeignSep(sep: string) {
    exists j :: 0 <= j < |sep| && IsForeign(sep[j])
  }

  lemma RejectedChars(c: char)
    ensures c in Rejected() <==> !IsForeign(c)
  {
    var s := Rejected();
    if IsAlphabet(c) {
      var i := Sextet(c).value;
      assert s[i] == AlphabetChar(i) == c;
    } else if c == '=' {
      assert s[64] == c;
    } else {
      hide AlphabetChar;
      assert forall i :: 0 <= i < |s| ==> s[i] == '=' || s[i] == AlphabetChar(i);
    }
  }

  /** Every one-character separator the constructor accepts is foreign. */
  lemma SingleSepIsForeign(sep: string, mac: Mac, text: Text)
    requires |sep| == 1
    ensures MakeSigner(sep, mac, text).Ok? <==> IsForeign(sep[0])
  {
    RejectedChars(sep[0]);
    if sep[0] in Rejected() {
      var i :| 0 <= i < |Rejected()| && Rejected()[i] == sep[0];
      assert MatchAt(Rejected(), sep, i);
    } else {
      forall i
        ensures !MatchAt(Rejected(), sep, i)
      {
        if 0 <= i < |Rejected()| {
          assert Rejected()[i] in Rejected();
          assert i + 1 <= |Rejected()| ==> Rejected()[i..i + 1][0] == Rejected()[i];
        }
      }
    }
  }

  lemma AlphabetOrPad(e: string, k: nat)
    requires forall c :: c in e ==> IsAlphabet(c)
    ensures forall c :: c in e + Pads(k) ==> !IsForeign(c)
  {
  }

  /** The signed form of `v`, with any number of padding characters. */
  ghost predicate IsTokenFor(s: Signer, token: string, v: string) {
    v + s.sep <= token && StripPad(token[|v + s.sep|..]) == Encode(s.mac(s.text.encode(v)))
  }

  lemma TokenIsAccepted(s: Signer, token: string, v: string)
    requires ForeignSep(s.sep) && IsTokenFor(s, token, v)
    ensures Unsign(s, token) == Ok(v)
  {
    hide StripPad, Decode, Encode;
    var sig := s.mac(s.text.encode(v));
    var tail := token[|v + s.sep|..];
    assert token == v + s.sep + tail;
    AlphabetOrPad(Encode(sig), |tail| - |Encode(sig)|);
    LastOccurrence(v, s.sep, tail, c => !IsForeign(c));
    hide RFind;
    assert token[..|v|] == v && token[|v| + |s.sep|..] == tail;
    DecodeExactlyCanonical(tail, sig);
  }

  lemma AcceptedIsToken(s: Signer, token: string, v: string)
    requires Unsign(s, token) == Ok(v)
    ensures IsTokenFor(s, token, v)
  {
    hide StripPad, Decode, Encode;
    var p := RFind(token, s.sep).value;
    assert MatchAt(token, s.sep, p);
    assert token[..p + |s.sep|] == v + s.sep;
    DecodeExactlyCanonical(token[p + |s.sep|..], s.mac(s.text.encode(v)));
  }

  /** The accepted language: `Unsign` returns `v` exactly on `v`, separator, canonical signature, and
      any number of `=`. In particular there is no other signature text for `v`. */
  lemma UnsignAcceptsExactly(s: Signer, token: string, v: string)
    requires ForeignSep(s.sep)
    ensures Unsign(s, token) == Ok(v) <==> IsTokenFor(s, token, v)
  {
    if IsTokenFor(s, token, v) {
      TokenIsAccepted(s, token, v);
    }
    if Unsign(s, token) == Ok(v) {
      AcceptedIsToken(s, token, v);
    }
  }

  /** What is not accepted: malformed without a separator; otherwise a bad signature, unless the text
      behind the last separator is not ASCII, which raises outside the library's faults. */
  lemma RefusedTokens(s: Signer, token: string)
    requires ForeignSep(s.sep) && forall v :: !IsTokenFor(s, token, v)
    ensures Unsign(s, token) == Err(
      if !Contains(token, s.sep) then MalformedToken
      else if IsAscii(token[RFind(token, s.sep).value + |s.sep|..]) then BadSignature else UnicodeError)
  {
    if Unsign(s, token).Ok? {
      AcceptedIsToken(s, token, Unsign(s, token).value);
    }
    if Contains(token, s.sep) {
      DecodeExactlyCanonical(token[RFind(token, s.sep).value + |s.sep|..], []);
    }
    hide Decode, Encode, RFind, IsTokenFor;
  }

  /** `unsign(sign(v)) == v` for every value that `sign` accepts. */
  lemma UnsignInvertsSign(s: Signer, v: string)
    requires ForeignSep(s.sep)
    ensures Sign(s, v).Ok? <==> !Contains(v, s.sep)
    ensures Sign(s, v).Ok? ==> Unsign(s, Sign(s, v).value) == Ok(v)
  {
    if Sign(s, v).Ok? {
      var token := Sign(s, v).value;
      var sig := SignatureOf(s, v);
      assert token == v + s.sep + sig && token[|v + s.sep|..] == sig;
      assert sig != [] ==> sig[|sig| - 1] in sig;
      UnsignAcceptsExactly(s, token, v);
    }
  }

  // ---- Which separators work for every MAC -------------------------------------------------

  ghost predicate AlwaysRoundTrips(sep: string, text: Text) {
    forall mac: Mac, v: string :: Sign(Signer(sep, mac, text), v).Ok? ==>
      Unsign(Signer(sep, mac, text), Sign(Signer(sep, mac, text), v).value) == Ok(v)
  }

  lemma SextetInverse(c: char)
    ensures IsAlphabet(c) ==> Sextet(c).Some? && AlphabetChar(Sextet(c).value) == c
  {
  }

  lemma GroupIsEncoding(s: string) returns (a: Byte, b: Byte, c: Byte)
    requires |s| == 4 && forall x :: x in s ==> IsAlphabet(x)
    ensures EncodeThree(a, b, c) == s
  {
    SextetInverse(s[0]);
    SextetInverse(s[1]);
    SextetInverse(s[2]);
    SextetInverse(s[3]);
    hide AlphabetChar, Sextet, IsAlphabet;
    var w, x, y, z := Sextet(s[0]).value, Sextet(s[1]).value, Sextet(s[2]).value, Sextet(s[3]).value;
    a, b, c := w * 4 + x / 16, x % 16 * 16 + y / 4, y % 4 * 64 + z;
    assert a / 4 == w && a % 4 * 16 + b / 16 == x && b % 16 * 4 + c / 64 == y && c % 64 == z;
  }

  /** Every alphabet string of whole groups is the encoding of some bytes. */
  lemma {:induction false} WholeGroupsAreEncodings(s: string) returns (x: seq<Byte>)
    requires |s| % 4 == 0 && forall c :: c in s ==> IsAlphabet(c)
    ensures Encode(x) == s
  {
    if s == [] {
      x := [];
    } else {
      assert |s[4..]| % 4 == 0;
      var rest := WholeGroupsAreEncodings(s[4..]);
      var a, b, c := GroupIsEncoding(s[..4]);
      x := [a, b, c] + rest;
      assert x[3..] == rest;
      assert s == s[..4] + s[4..];
    }
  }

  lemma OutsideSepRoundTrips(sep: string, mac: Mac, text: Text, v: string)
    requires exists j :: 0 <= j < |sep| && !IsAlphabet(sep[j])
    requires Sign(Signer(sep, mac, text), v).Ok?
    ensures Unsign(Signer(sep, mac, text), Sign(Signer(sep, mac, text), v).value) == Ok(v)
  {
    var sig := mac(text.encode(v));
    var tail := Encode(sig);
    LastOccurrence(v, sep, tail, c => IsAlphabet(c));
    hide Encode, Decode, RFind, IsAlphabet;
    var token := v + sep + tail;
    assert token[..|v|] == v && token[|v| + |sep|..] == tail == tail + Pads(0);
    DecodeInvertsEncode(sig, 0);
  }

  lemma SecondOccurrence(sep: string, filler: string)
    ensures var t := sep + (sep + filler); RFind(t, sep).Some? && RFind(t, sep).value >= |sep|
  {
    var t := sep + (sep + filler);
    assert t[|sep|..|sep| + |sep|] == sep;
    assert MatchAt(t, sep, |sep|);
  }

  /** A signature that starts with the separator makes the empty value unreadable. */
  lemma RepeatedSepIsLost(s: Signer, filler: string)
    requires s.sep != [] && SignatureOf(s, "") == s.sep + filler
    ensures Sign(s, "").Ok? && Unsign(s, Sign(s, "").value) != Ok("")
  {
    hide SignatureOf;
    assert RFind("", s.sep).None?;
    SecondOccurrence(s.sep, filler);
    hide RFind;
    assert Sign(s, "").value == "" + s.sep + (s.sep + filler) == s.sep + (s.sep + filler);
  }

  /** Under a MAC whose signature repeats the separator the empty value does not come back. */
  lemma AlphabetSepFails(sep: string, text: Text)
    requires sep != [] && forall c :: c in sep ==> IsAlphabet(c)
    ensures !AlwaysRoundTrips(sep, text)
  {
    var filler := seq(3 * |sep|, _ => 'A');
    var x := WholeGroupsAreEncodings(sep + filler);
    hide Encode, IsAlphabet, Sign, Unsign;
    RepeatedSepIsLost(Signer(sep, _ => x, text), filler);
  }

  /** Signing round-trips under every MAC exactly when the separator has a character outside the
      Base64 alphabet. The constructor's substring test enforces this for one character only. */
  lemma SeparatorWorksIff(sep: string, text: Text)
    requires sep != []
    ensures AlwaysRoundTrips(sep, text) <==> exists j :: 0 <= j < |sep| && !IsAlphabet(sep[j])
  {
    if exists j :: 0 <= j < |sep| && !IsAlphabet(sep[j]) {
      forall mac: Mac, v: string | Sign(Signer(sep, mac, text), v).Ok?
        ensures Unsign(Signer(sep, mac, text), Sign(Signer(sep, mac, text), v).value) == Ok(v)
      {
        OutsideSepRoundTrips(sep, mac, text, v);
      }
    } else {
      AlphabetSepFails(sep, text);
    }
  }

  /** Two alphabet characters in a row that are not neighbours in the constructor's string pass its
      check although they cannot serve as separator. */
  lemma AcceptedSeparatorThatFails(mac: Mac, text: Text)
    ensures MakeSigner("AC", mac, text).Ok? && !AlwaysRoundTrips("AC", text)
  {
    assert forall c :: c in "AC" ==> IsAlphabet(c);
    AlphabetSepFails("AC", text);
    var all := Rejected();
    forall i
      ensures !MatchAt(all, "AC", i)
    {
      if 0 <= i && i + 2 <= |all| {
        assert all[i..i + 2][0] == all[i] && all[i..i + 2][1] == all[i + 1];
        assert all[i] == AlphabetChar(i);
        assert i + 1 < 64 ==> all[i + 1] == AlphabetChar(i + 1);
      }
    }
  }

  // ---- Byte strings ------------------------------------------------------------------------

  function AsciiByte(c: char, e: string): Byte
    requires IsAscii(e) && c in e
  {
    c as int
  }

  function AsciiBytes(e: string): (b: seq<Byte>)
    requires IsAscii(e)
    ensures |b| == |e| && forall i :: 0 <= i < |e| ==> b[i] == e[i] as int
  {
    seq(|e|, i requires 0 <= i < |e| => AsciiByte(e[i], e))
  }

  function SignBytes(s: Signer, data: seq<Byte>): seq<Byte> {
    var e := Encode(s.mac(data));
    assert forall c :: c in e ==> IsAlphabet(c);
    data + s.text.encode(s.sep) + AsciiBytes(e)
  }

  function UnsignBytes(s: Signer, signed: seq<Byte>): Result<seq<Byte>> {
    var sep := s.text.encode(s.sep);
    match RFind(signed, sep)
    case None => Err(MalformedToken)
    case Some(p) =>
      match DecodeBytes(signed[p + |sep|..])
      case Bytes(sig) => if s.mac(signed[..p]) == sig then Ok(signed[..p]) else Err(BadSignature)
      case _ => Err(BadSignature)
  }

  predicate IsAlphabetByte(b: Byte) {
    IsAlphabet(b as char)
  }

  lemma ForeignCharEncoding(text: Text, c: char)
    requires LawfulText(text) && IsForeign(c)
    ensures text.encode([c]) != [] && !IsAlphabetByte(text.encode([c])[0]) && text.encode([c])[0] != '=' as int
  {
    var b := text.encode([c]);
    if c as int < 128 {
      assert b == [c as int];
    } else {
      assert b != [] && b[0] in b && b[0] >= 128;
    }
  }

  lemma DecodeBytesInvertsEncode(x: seq<Byte>)
    requires IsAscii(Encode(x))
    ensures DecodeBytes(AsciiBytes(Encode(x))) == Bytes(x)
  {
    var e := Encode(x);
    assert ToChars(AsciiBytes(e)) == e == e + Pads(0);
    DecodeInvertsEncode(x, 0);
  }

  ghost predicate IsSignedBytes(s: Signer, signed: seq<Byte>, data: seq<Byte>) {
    var head := data + s.text.encode(s.sep);
    head <= signed && StripPad(ToChars(signed[|head|..])) == Encode(s.mac(data))
  }

  lemma SignedBytesAreAccepted(s: Signer, signed: seq<Byte>, data: seq<Byte>)
    requires LawfulText(s.text) && |s.sep| == 1 && IsForeign(s.sep[0]) && IsSignedBytes(s, signed, data)
    ensures UnsignBytes(s, signed) == Ok(data)
  {
    var sep := s.text.encode(s.sep);
    assert s.sep == [s.sep[0]];
    ForeignCharEncoding(s.text, s.sep[0]);
    hide Encode, RFind, DecodeBytes, StripPad, LawfulText, IsForeign, IsAlphabetByte;
    var tail := signed[|data + sep|..];
    assert signed == data + sep + tail;
    TailBytes(tail, s.mac(data));
    LastOccurrence(data, sep, tail, b => IsAlphabetByte(b) || b == '=' as int);
    assert signed[..|data|] == data && signed[|data| + |sep|..] == tail;
  }

  lemma AcceptedBytesAreSigned(s: Signer, signed: seq<Byte>, data: seq<Byte>)
    requires UnsignBytes(s, signed) == Ok(data)
    ensures IsSignedBytes(s, signed, data)
  {
    hide Encode, RFind, DecodeBytes, StripPad;
    var sep := s.text.encode(s.sep);
    var p := RFind(signed, sep).value;
    assert MatchAt(signed, sep, p);
    assert signed[..p + |sep|] == data + sep;
    BytesExactly(signed[p + |sep|..], s.mac(data));
  }

  /** The accepted byte strings: data, separator, canonical signature of the data, any number of `=`. */
  lemma UnsignBytesAcceptsExactly(s: Signer, signed: seq<Byte>, data: seq<Byte>)
    requires LawfulText(s.text) && |s.sep| == 1 && IsForeign(s.sep[0])
    ensures UnsignBytes(s, signed) == Ok(data) <==> IsSignedBytes(s, signed, data)
  {
    hide UnsignBytes, IsSignedBytes, LawfulText, IsForeign;
    if IsSignedBytes(s, signed, data) {
      SignedBytesAreAccepted(s, signed, data);
    }
    if UnsignBytes(s, signed) == Ok(data) {
      AcceptedBytesAreSigned(s, signed, data);
    }
  }

  lemma SignedTail(e: string)
    requires IsAscii(e) && (e != [] ==> e[|e| - 1] != '=')
    ensures StripPad(ToChars(AsciiBytes(e))) == e
  {
    assert ToChars(AsciiBytes(e)) == e;
  }

  /** `unsign_bytes(sign_bytes(d)) == d` for all data, also when it contains the separator. */
  lemma UnsignBytesInvertsSignBytes(s: Signer, data: seq<Byte>)
    requires LawfulText(s.text) && |s.sep| == 1 && IsForeign(s.sep[0])
    ensures UnsignBytes(s, SignBytes(s, data)) == Ok(data)
  {
    var e := Encode(s.mac(data));
    assert forall c :: c in e ==> IsAlphabet(c);
    assert e != [] ==> e[|e| - 1] in e;
    SignedTail(e);
    var head := data + s.text.encode(s.sep);
    assert SignBytes(s, data) == head + AsciiBytes(e);
    assert (head + AsciiBytes(e))[|head|..] == AsciiBytes(e);
    hide Encode, UnsignBytes, StripPad, IsAlphabet, LawfulText, IsForeign, SignBytes;
    SignedBytesAreAccepted(s, SignBytes(s, data), data);
  }

  lemma BytesExactly(b: seq<Byte>, x: seq<Byte>)
    ensures DecodeBytes(b) == Bytes(x) <==> StripPad(ToChars(b)) == Encode(x)
  {
    var t := ToChars(b);
    DecodeExactlyCanonical(t, x);
    if StripPad(t) == Encode(x) {
      AlphabetIsAscii(Encode(x), |t| - |Encode(x)|);
    }
    hide Encode, DecodeAscii, StripPad;
  }

  lemma TailBytes(tail: seq<Byte>, x: seq<Byte>)
    requires StripPad(ToChars(tail)) == Encode(x)
    ensures DecodeBytes(tail) == Bytes(x)
    ensures forall b :: b in tail ==> IsAlphabetByte(b) || b == '=' as int
  {
    BytesExactly(tail, x);
    var t := ToChars(tail);
    AlphabetOrPad(Encode(x), |t| - |Encode(x)|);
    forall b | b in tail
      ensures IsAlphabetByte(b) || b == '=' as int
    {
      var i :| 0 <= i < |tail| && tail[i] == b;
      assert t[i] == b as char && t[i] in t;
    }
    hide Encode, StripPad, DecodeBytes;
  }

  // ---- Timestamps --------------------------------------------------------------------------

  const INT64: int := 0x8000_0000_0000_0000

  function Pow256(k: nat): (p: nat)
    ensures p >= 1
  {
    if k == 0 then 1 else 256 * Pow256(k - 1)
  }

  /** Big-endian digits. */
  function ToDigits(n: nat, k: nat): (d: seq<Byte>)
    ensures |d| == k
  {
    if k == 0 then [] else ToDigits(n / 256, k - 1) + [n % 256]
  }

  function FromDigits(d: seq<Byte>): nat {
    if d == [] then 0 else FromDigits(d[..|d| - 1]) * 256 + d[|d| - 1]
  }

  lemma {:induction false} DigitsRoundTrip(n: nat, k: nat)
    requires n < Pow256(k)
    ensures FromDigits(ToDigits(n, k)) == n
  {
    if k > 0 {
      DigitsRoundTrip(n / 256, k - 1);
      assert ToDigits(n, k)[..k - 1] == ToDigits(n / 256, k - 1);
    }
  }

  lemma {:induction false} DigitsUnique(d: seq<Byte>)
    ensures FromDigits(d) < Pow256(|d|) && ToDigits(FromDigits(d), |d|) == d
  {
    if d != [] {
      var front, last := d[..|d| - 1], d[|d| - 1];
      DigitsUnique(front);
      assert FromDigits(d) / 256 == FromDigits(front) && FromDigits(d) % 256 == last;
      assert d == front + [last];
    }
  }

  /** Digit `i` is the one of weight 256 to the power `k - 1 - i`. */
  lemma {:induction false} DigitAt(n: nat, k: nat, i: nat)
    requires i < k
    ensures ToDigits(n, k)[i] == n / Pow256(k - 1 - i) % 256
    decreases k
  {
    if i < k - 1 {
      DigitAt(n / 256, k - 1, i);
      DivideTwice(n, Pow256(k - 2 - i));
      hide ToDigits;
      assert Pow256(k - 1 - i) == 256 * Pow256(k - 2 - i);
      assert ToDigits(n, k)[i] == ToDigits(n / 256, k - 1)[i] by {
        DigitsFront(n, k, i);
      }
    }
  }

  lemma DigitsFront(n: nat, k: nat, i: nat)
    requires i < k - 1
    ensures ToDigits(n, k)[i] == ToDigits(n / 256, k - 1)[i]
  {
  }

  lemma DivideTwice(n: nat, p: nat)
    requires p > 0
    ensures n / 256 / p == n / (256 * p)
  {
    var q, r := n / 256 / p, n / 256 % p;
    assert n / 256 == q * p + r;
    var low := n % 256;
    assert n == (q * p + r) * 256 + low == q * (256 * p) + (r * 256 + low);
    assert 0 <= r * 256 + low < 256 * p by {
      assert r <= p - 1;
      assert r * 256 <= (p - 1) * 256;
    }
    QuotientIs(n, 256 * p, q, r * 256 + low);
  }

  lemma QuotientIs(n: nat, d: nat, q: nat, r: nat)
    requires d > 0 && n == q * d + r && r < d
    ensures n / d == q
  {
    var x := n / d;
    assert n == x * d + n % d;
    assert (q - x) * d == n % d - r;
    OnlyZeroIsSmall(q - x, d);
  }

  lemma OnlyZeroIsSmall(a: int, d: int)
    requires d > 0
    ensures a == 0 <==> -d < a * d < d
  {
    assert a >= 1 ==> a * d >= d;
    assert a <= -1 ==> a * d <= -d;
  }

  /** `struct.pack(">q", us)`: two's complement in eight bytes. */
  function Pack(us: int): Option<seq<Byte>> {
    if -INT64 <= us < INT64 then Some(ToDigits(if us < 0 then us + 2 * INT64 else us, 8)) else None
  }

  function Unpack(raw: seq<Byte>): Option<int> {
    if |raw| != 8 then None
    else
      var n := FromDigits(raw);
      Some(if n >= INT64 then n - 2 * INT64 else n)
  }

  lemma UnpackInvertsPack(us: int)
    ensures Pack(us).Some? <==> -INT64 <= us < INT64
    ensures Pack(us).Some? ==> |Pack(us).value| == 8 && Unpack(Pack(us).value) == Some(us)
  {
    assert Pow256(8) == 2 * INT64;
    if Pack(us).Some? {
      DigitsRoundTrip(if us < 0 then us + 2 * INT64 else us, 8);
    }
  }

  lemma PackInvertsUnpack(raw: seq<Byte>, us: int)
    ensures Unpack(raw) == Some(us) <==> Pack(us) == Some(raw)
  {
    assert Pow256(8) == 2 * INT64;
    DigitsUnique(raw);
    if Pack(us) == Some(raw) {
      UnpackInvertsPack(us);
    }
  }

  /** The packing is big-endian two's complement. */
  lemma PackIsBigEndian(us: int, i: nat)
    requires Pack(us).Some? && i < 8
    ensures |Pack(us).value| == 8
    ensures Pack(us).value[i] == us % 0x1_0000_0000_0000_0000 / Pow256(7 - i) % 256
  {
    hide ToDigits, Pow256;
    var n := us % 0x1_0000_0000_0000_0000;
    assert n == if us < 0 then us + 2 * INT64 else us;
    DigitAt(n, 8, i);
    hide *;
  }

  /** `TimestampSigner.sign`, with the time as microseconds since the epoch of the format. */
  function SignAt(s: Signer, value: string, us: int): Result<string> {
    match Pack(us)
    case None => Err(StructError)
    case Some(raw) => Sign(s, Encode(s.text.encode(value)) + "." + Encode(raw))
  }

  function SplitCompound(text: Text, compound: string): Result<(string, int)> {
    match RFind(compound, ".")
    case None => Err(MalformedToken)
    case Some(p) =>
      match Decode(compound[p + 1..])
      case Bytes(raw) => (
        if Unpack(raw).None? then Err(MalformedToken)
        else
          match Decode(compound[..p])
          case Bytes(data) =>
            (match text.decode(data)
             case None => Err(MalformedToken)
             case Some(value) => Ok((value, Unpack(raw).value)))
          case _ => Err(MalformedToken))
      case _ => Err(MalformedToken)
  }

  /** `unsign_with_timestamp` at clock time `now`; ages in microseconds. */
  function UnsignAt(s: Signer, token: string, maxAge: Option<int>, now: int): Result<(string, int)> {
    match Unsign(s, token)
    case Err(f) => Err(f)
    case Ok(compound) =>
      match SplitCompound(s.text, compound)
      case Err(f) => Err(f)
      case Ok(pair) => if maxAge.Some? && now - pair.1 > maxAge.value then Err(Expired) else Ok(pair)
  }

  /** Foreign to signatures and to the inner separator as well. */
  ghost predicate TimestampSep(sep: string) {
    exists j :: 0 <= j < |sep| && IsForeign(sep[j]) && sep[j] != '.'
  }

  lemma CompoundSplits(text: Text, value: string, us: int)
    requires LawfulText(text) && Pack(us).Some?
    ensures SplitCompound(text, Encode(text.encode(value)) + "." + Encode(Pack(us).value)) == Ok((value, us))
  {
    var raw, data := Pack(us).value, text.encode(value);
    var c := Encode(data) + "." + Encode(raw);
    assert IsForeign("."[0]);
    LastOccurrence(Encode(data), ".", Encode(raw), x => IsAlphabet(x));
    UnpackInvertsPack(us);
    hide Encode, Decode, RFind, IsAlphabet, Pack, Unpack;
    assert c[..|Encode(data)|] == Encode(data) == Encode(data) + Pads(0);
    assert c[|Encode(data)| + 1..] == Encode(raw) == Encode(raw) + Pads(0);
    DecodeInvertsEncode(data, 0);
    DecodeInvertsEncode(raw, 0);
  }

  lemma CompoundLacksSep(sep: string, a: string, b: string)
    requires TimestampSep(sep) && (forall c :: c in a ==> IsAlphabet(c)) && (forall c :: c in b ==> IsAlphabet(c))
    ensures !Contains(a + "." + b, sep)
  {
    var t := a + "." + b;
    var j :| 0 <= j < |sep| && IsForeign(sep[j]) && sep[j] != '.';
    forall p
      ensures !MatchAt(t, sep, p)
    {
      if 0 <= p && p + |sep| <= |t| {
        assert t[p..p + |sep|][j] == t[p + j];
        assert t[p + j] == if p + j < |a| then a[p + j] else if p + j == |a| then '.' else b[p + j - |a| - 1];
      }
    }
  }

  /** Signing is total on strings for 64-bit times, and unsigning returns the same string and the same
      signed microsecond offset unless it is too old. */
  lemma UnsignAtInvertsSignAt(s: Signer, value: string, us: int, maxAge: Option<int>, now: int)
    requires LawfulText(s.text) && TimestampSep(s.sep)
    ensures SignAt(s, value, us).Ok? <==> -INT64 <= us < INT64
    ensures SignAt(s, value, us).Ok? ==>
      UnsignAt(s, SignAt(s, value, us).value, maxAge, now) ==
      if maxAge.Some? && now - us > maxAge.value then Err(Expired) else Ok((value, us))
  {
    UnpackInvertsPack(us);
    hide Pack;
    if Pack(us).Some? {
      var a, b := Encode(s.text.encode(value)), Encode(Pack(us).value);
      CompoundLacksSep(s.sep, a, b);
      UnsignInvertsSign(s, a + "." + b);
      CompoundSplits(s.text, value, us);
      hide Unsign, Sign, SplitCompound, Encode;
      assert Sign(s, a + "." + b).Ok?;
    }
  }

  /** Decoding fails on everything but encodings, as strict UTF-8 does. */
  ghost predicate StrictText(text: Text) {
    forall b, v :: text.decode(b) == Some(v) ==> text.encode(v) == b
  }

  /** The two halves of a compound, each with any number of trailing `=`. */
  ghost predicate IsCompound(text: Text, compound: string, v: string, us: int) {
    exists a, b ::
      && compound == a + "." + b && StripPad(a) == Encode(text.encode(v))
      && Pack(us).Some? && StripPad(b) == Encode(Pack(us).value)
  }

  lemma CompoundIsRead(text: Text, a: string, b: string, v: string, us: int)
    requires LawfulText(text) && Pack(us).Some?
    requires StripPad(a) == Encode(text.encode(v)) && StripPad(b) == Encode(Pack(us).value)
    ensures SplitCompound(text, a + "." + b) == Ok((v, us))
  {
    hide Encode, Decode, StripPad, Pack, Unpack, RFind;
    DecodeExactlyCanonical(a, text.encode(v));
    DecodeExactlyCanonical(b, Pack(us).value);
    PackInvertsUnpack(Pack(us).value, us);
    AlphabetOrPad(Encode(Pack(us).value), |b| - |StripPad(b)|);
    assert IsForeign("."[0]);
    LastOccurrence(a, ".", b, c => !IsForeign(c));
    hide IsForeign;
    var compound := a + "." + b;
    assert compound[..|a|] == a && compound[|a| + 1..] == b;
  }

  lemma ReadIsCompound(text: Text, compound: string, v: string, us: int)
    requires StrictText(text) && SplitCompound(text, compound) == Ok((v, us))
    ensures IsCompound(text, compound, v, us)
  {
    hide Encode, Decode, StripPad, Pack, Unpack, RFind;
    var p := RFind(compound, ".").value;
    var a, b := compound[..p], compound[p + 1..];
    assert MatchAt(compound, ".", p);
    assert compound == a + "." + b;
    DecodeExactlyCanonical(b, Decode(b).data);
    PackInvertsUnpack(Decode(b).data, us);
    DecodeExactlyCanonical(a, Decode(a).data);
    assert StripPad(a) == Encode(text.encode(v));
  }

  lemma CompoundIsSplit(text: Text, compound: string, v: string, us: int)
    requires LawfulText(text) && StrictText(text)
    ensures SplitCompound(text, compound) == Ok((v, us)) <==> IsCompound(text, compound, v, us)
  {
    hide SplitCompound, Encode, StripPad, Pack;
    if IsCompound(text, compound, v, us) {
      var a, b :| compound == a + "." + b && StripPad(a) == Encode(text.encode(v))
                  && Pack(us).Some? && StripPad(b) == Encode(Pack(us).value);
      CompoundIsRead(text, a, b, v, us);
    }
    if SplitCompound(text, compound) == Ok((v, us)) {
      ReadIsCompound(text, compound, v, us);
    }
  }

  /** The accepted timestamped tokens: exactly the signed compounds of an encoded value and a packed
      time, up to trailing `=`, that are not too old. */
  lemma UnsignAtAcceptsExactly(s: Signer, token: string, maxAge: Option<int>, now: int, v: string, us: int)
    requires ForeignSep(s.sep) && LawfulText(s.text) && StrictText(s.text)
    ensures UnsignAt(s, token, maxAge, now) == Ok((v, us)) <==>
            && (exists compound :: IsTokenFor(s, token, compound) && IsCompound(s.text, compound, v, us))
            && (maxAge.Some? ==> now - us <= maxAge.value)
  {
    hide Unsign, SplitCompound, IsTokenFor, IsCompound, LawfulText;
    forall compound
      ensures IsTokenFor(s, token, compound) <==> Unsign(s, token) == Ok(compound)
      ensures SplitCompound(s.text, compound) == Ok((v, us)) <==> IsCompound(s.text, compound, v, us)
    {
      UnsignAcceptsExactly(s, token, compound);
      CompoundIsSplit(s.text, compound, v, us);
    }
  }

  /** With "." as separator nothing can be signed with a timestamp. */
  lemma DotSeparatorSignsNothing(s: Signer, value: string, us: int)
    requires s.sep == "."
    ensures SignAt(s, value, us).Err?
  {
    if Pack(us).Some? {
      var a, b := Encode(s.text.encode(value)), Encode(Pack(us).value);
      assert (a + "." + b)[|a|..|a| + 1] == ".";
      assert MatchAt(a + "." + b, ".", |a|);
    }
  }

  /** A one-character separator that the constructor accepts signs every string at every 64-bit time, and
      reads it back, if and only if it is not ".". */
  lemma TimestampSepIff(sep: string, mac: Mac, text: Text)
    requires |sep| == 1 && LawfulText(text) && MakeSigner(sep, mac, text).Ok?
    ensures sep != "." <==>
            forall value, us | -INT64 <= us < INT64 :: ReadsBackAt(Signer(sep, mac, text), value, us)
  {
    SingleSepIsForeign(sep, mac, text);
    var s := Signer(sep, mac, text);
    if sep == "." {
      DotSeparatorSignsNothing(s, "", 0);
      assert !ReadsBackAt(s, "", 0);
    } else {
      assert sep == [sep[0]];
      assert TimestampSep(sep);
      forall value, us | -INT64 <= us < INT64
        ensures ReadsBackAt(s, value, us)
      {
        UnsignAtInvertsSignAt(s, value, us, None, us);
      }
    }
  }

  ghost predicate ReadsBackAt(s: Signer, value: string, us: int) {
    SignAt(s, value, us).Ok? && UnsignAt(s, SignAt(s, value, us).value, None, us) == Ok((value, us))
  }

  /** Acceptance grows with the permitted age and shrinks as the clock advances, and the value does not
      depend on either. */
  lemma AgeMonotone(s: Signer, token: string, age: int, age': int, now: int, now': int)
    requires age <= age' && now' <= now
    requires UnsignAt(s, token, Some(age), now).Ok?
    ensures UnsignAt(s, token, Some(age'), now') == UnsignAt(s, token, Some(age), now) == UnsignAt(s, token, None, now)
  {
    hide Unsign, SplitCompound;
  }

  // ---- Key rotation ------------------------------------------------------------------------

  /** `hmac` is the MAC family by secret; the first secret signs. */
  datatype Rotating = Rotating(sep: string, secrets: seq<seq<Byte>>, hmac: (seq<Byte>, seq<Byte>) -> seq<Byte>,
                               text: Text)

  function SignerFor(r: Rotating, secret: seq<Byte>): Signer {
    Signer(r.sep, m => r.hmac(secret, m), r.text)
  }

  function RotSign(r: Rotating, value: string): Result<string>
    requires r.secrets != []
  {
    Sign(SignerFor(r, r.secrets[0]), value)
  }

  /** Tries the secrets in order; only the library's own signature faults move on to the next. */
  function TrySecrets(r: Rotating, secrets: seq<seq<Byte>>, token: string): Result<string> {
    if secrets == [] then Err(BadSignature)
    else
      var attempt := Unsign(SignerFor(r, secrets[0]), token);
      if attempt.Ok? || attempt == Err(UnicodeError) then attempt else TrySecrets(r, secrets[1..], token)
  }

  function RotUnsign(r: Rotating, token: string): Result<string> {
    TrySecrets(r, r.secrets, token)
  }

  /** All secrets of one rotating signer read a token the same way and can only return one value. */
  lemma SecretsAgree(r: Rotating, a: seq<Byte>, b: seq<Byte>, token: string)
    ensures var x, y := Unsign(SignerFor(r, a), token), Unsign(SignerFor(r, b), token);
      && (x == Err(UnicodeError) <==> y == Err(UnicodeError))
      && (x.Ok? && y.Ok? ==> x == y)
  {
    hide Decode, RFind;
  }

  lemma {:induction false} TrySecretsFindsOne(r: Rotating, secrets: seq<seq<Byte>>, token: string, v: string)
    ensures TrySecrets(r, secrets, token) == Ok(v) <==>
            exists k :: k in secrets && Unsign(SignerFor(r, k), token) == Ok(v)
  {
    hide Unsign;
    if secrets != [] {
      TrySecretsFindsOne(r, secrets[1..], token, v);
      assert secrets == [secrets[0]] + secrets[1..];
      forall k | k in secrets
        ensures var x, y := Unsign(SignerFor(r, secrets[0]), token), Unsign(SignerFor(r, k), token);
          (x == Err(UnicodeError) <==> y == Err(UnicodeError)) && (x.Ok? && y.Ok? ==> x == y)
      {
        SecretsAgree(r, secrets[0], k, token);
      }
    }
  }

  /** A token is accepted with value `v` exactly when some configured secret accepts it with `v`. */
  lemma RotatingAcceptsIff(r: Rotating, token: string, v: string)
    ensures RotUnsign(r, token) == Ok(v) <==> exists k :: k in r.secrets && Unsign(SignerFor(r, k), token) == Ok(v)
  {
    TrySecretsFindsOne(r, r.secrets, token, v);
  }

  lemma {:induction false} TrySecretsRefuses(r: Rotating, secrets: seq<seq<Byte>>, token: string)
    requires ForeignSep(r.sep) && forall k, v :: k in secrets ==> Unsign(SignerFor(r, k), token) != Ok(v)
    ensures TrySecrets(r, secrets, token) ==
            Err(if secrets != [] && Contains(token, r.sep) && !IsAscii(token[RFind(token, r.sep).value + |r.sep|..])
                then UnicodeError else BadSignature)
  {
    if secrets != [] {
      hide Unsign, RFind, IsAscii, Contains;
      assert secrets[0] in secrets;
      OneSecretRefuses(r, secrets[0], token);
      TrySecretsRefuses(r, secrets[1..], token);
    }
  }

  lemma OneSecretRefuses(r: Rotating, secret: seq<Byte>, token: string)
    requires ForeignSep(r.sep) && forall v :: Unsign(SignerFor(r, secret), token) != Ok(v)
    ensures Unsign(SignerFor(r, secret), token) ==
            Err(if !Contains(token, r.sep) then MalformedToken
                else if IsAscii(token[RFind(token, r.sep).value + |r.sep|..]) then BadSignature else UnicodeError)
  {
    hide Unsign, IsTokenFor;
    var s := SignerFor(r, secret);
    forall v
      ensures !IsTokenFor(s, token, v)
    {
      UnsignAcceptsExactly(s, token, v);
    }
    RefusedTokens(s, token);
  }

  /** A token that no secret accepts has a bad signature, unless it is not ASCII behind the separator. */
  lemma RotatingRefuses(r: Rotating, token: string)
    requires r.secrets != [] && ForeignSep(r.sep)
    requires forall k, v :: k in r.secrets ==> Unsign(SignerFor(r, k), token) != Ok(v)
    ensures RotUnsign(r, token) ==
            Err(if Contains(token, r.sep) && !IsAscii(token[RFind(token, r.sep).value + |r.sep|..])
                then UnicodeError else BadSignature)
  {
    TrySecretsRefuses(r, r.secrets, token);
    hide TrySecrets, Unsign, RFind, IsAscii;
  }

  /** The accepted tokens and their values depend only on which secrets there are, grow with them (so
      prepending a new secret keeps every old token), and include whatever a member secret signs first
      under another list. */
  lemma RotationPreservesTokens(r: Rotating, q: Rotating, token: string, v: string)
    requires q.sep == r.sep && q.hmac == r.hmac && q.text == r.text
    requires forall k :: k in r.secrets ==> k in q.secrets
    ensures RotUnsign(r, token) == Ok(v) ==> RotUnsign(q, token) == Ok(v)
    ensures (forall k :: k in q.secrets ==> k in r.secrets) ==>
      (RotUnsign(r, token) == Ok(v) <==> RotUnsign(q, token) == Ok(v))
  {
    RotatingAcceptsIff(r, token, v);
    RotatingAcceptsIff(q, token, v);
    assert forall k :: SignerFor(r, k) == SignerFor(q, k);
  }

  lemma RotatedTokenVerifies(r: Rotating, q: Rotating, v: string)
    requires q.sep == r.sep && q.hmac == r.hmac && q.text == r.text && ForeignSep(r.sep)
    requires r.secrets != [] && r.secrets[0] in q.secrets
    ensures RotSign(r, v).Ok? ==> RotUnsign(q, RotSign(r, v).value) == Ok(v)
  {
    var s := SignerFor(r, r.secrets[0]);
    assert s == SignerFor(q, r.secrets[0]);
    UnsignInvertsSign(s, v);
    if RotSign(r, v).Ok? {
      RotatingAcceptsIff(q, RotSign(r, v).value, v);
    }
  }

  // ---- dumps and loads ---------------------------------------------------------------------

  /** JSON text as bytes, and zlib. */
  datatype Objects<!Obj> = Objects(
    dump: Obj -> seq<Byte>, load: seq<Byte> -> Option<Obj>,
    compress: seq<Byte> -> seq<Byte>, decompress: seq<Byte> -> Option<seq<Byte>>)

  /** Inverse pairs; JSON text is not empty and does not start with the compression flag byte. */
  ghost predicate LawfulObjects<Obj(!new)>(c: Objects<Obj>) {
    && (forall o :: c.load(c.dump(o)) == Some(o))
    && (forall o :: c.dump(o) != [] && c.dump(o)[0] != 1)
    && (forall b :: c.decompress(c.compress(b)) == Some(b))
  }

  function Payload<Obj>(c: Objects<Obj>, obj: Obj, compress: bool): seq<Byte> {
    var json := c.dump(obj);
    var packed := c.compress(json);
    if compress && |packed| < |json| then [1] + packed else json
  }

  /** Compression is used exactly when asked for and shorter, and never makes a payload longer. */
  lemma PayloadCompresses<Obj(!new)>(c: Objects<Obj>, obj: Obj, compress: bool)
    requires LawfulObjects(c)
    ensures var p, packed := Payload(c, obj, compress), c.compress(c.dump(obj));
      && (p[0] == 1 <==> compress && |packed| < |c.dump(obj)|)
      && (p[0] == 1 ==> p[1..] == packed) && (p[0] != 1 ==> p == c.dump(obj))
      && |p| <= |c.dump(obj)|
  {
    var packed := c.compress(c.dump(obj));
    assert ([1] + packed)[1..] == packed;
  }

  /** `timestamp` is None for `timestamp=False`; otherwise the signing time. */
  function Dumps<Obj>(s: Signer, c: Objects<Obj>, obj: Obj, compress: bool, timestamp: Option<int>): Result<string> {
    var data := Encode(Payload(c, obj, compress));
    match timestamp
    case None => Sign(s, data)
    case Some(us) => SignAt(s, data, us)
  }

  function ReadPayload<Obj>(c: Objects<Obj>, data: string): Result<Obj> {
    match Decode(data)
    case Malformed => Err(MalformedToken)
    case NotAscii => Err(UnicodeError)
    case Bytes(payload) =>
      var json := if payload != [] && payload[0] == 1 then c.decompress(payload[1..]) else Some(payload);
      if json.None? then Err(ZlibError)
      else
        match c.load(json.value)
        case None => Err(MalformedToken)
        case Some(obj) => Ok(obj)
  }

  /** Tries the timestamped format first; only a malformed token falls back to the plain one. */
  function Loads<Obj>(s: Signer, c: Objects<Obj>, token: string, maxAge: Option<int>, now: int): Result<Obj> {
    match UnsignAt(s, token, maxAge, now)
    case Ok(pair) => ReadPayload(c, pair.0)
    case Err(MalformedToken) => (
      match Unsign(s, token)
      case Ok(data) => ReadPayload(c, data)
      case Err(f) => Err(f))
    case Err(f) => Err(f)
  }

  lemma PayloadReads<Obj(!new)>(c: Objects<Obj>, obj: Obj, compress: bool)
    requires LawfulObjects(c)
    ensures ReadPayload(c, Encode(Payload(c, obj, compress))) == Ok(obj)
  {
    var payload := Payload(c, obj, compress);
    assert Encode(payload) == Encode(payload) + Pads(0);
    DecodeInvertsEncode(payload, 0);
    hide Encode, Decode;
    assert payload != c.dump(obj) ==> payload[1..] == c.compress(c.dump(obj));
  }

  lemma AlphabetLacks(s: string, sep: string)
    requires |sep| == 1 && !IsAlphabet(sep[0]) && forall c :: c in s ==> IsAlphabet(c)
    ensures !Contains(s, sep)
  {
    forall i
      ensures !MatchAt(s, sep, i)
    {
      assert 0 <= i && i + 1 <= |s| ==> s[i..i + 1][0] == s[i] && s[i] in s;
    }
  }

  /** `loads(dumps(obj)) == obj` in all four formats; a maximum age applies to timestamped tokens and
      is ignored for plain ones. */
  lemma LoadsInvertsDumps<Obj(!new)>(s: Signer, c: Objects<Obj>, obj: Obj, compress: bool, timestamp: Option<int>,
                                     maxAge: Option<int>, now: int)
    requires LawfulText(s.text) && LawfulObjects(c) && s.sep == ":"
    ensures Dumps(s, c, obj, compress, timestamp).Ok? <==> timestamp.None? || -INT64 <= timestamp.value < INT64
    ensures Dumps(s, c, obj, compress, timestamp).Ok? ==>
      Loads(s, c, Dumps(s, c, obj, compress, timestamp).value, maxAge, now) ==
      if timestamp.Some? && maxAge.Some? && now - timestamp.value > maxAge.value then Err(Expired) else Ok(obj)
  {
    hide Encode, SignAt, Unsign, Sign, ReadPayload, UnsignAt, Contains, Payload, IsAlphabet;
    var data := Encode(Payload(c, obj, compress));
    PayloadReads(c, obj, compress);
    ColonSep(s.sep);
    if timestamp.Some? {
      UnsignAtInvertsSignAt(s, data, timestamp.value, maxAge, now);
    } else {
      AlphabetLacks(data, ":");
      UnsignInvertsSign(s, data);
      PlainIsNotCompound(s, data, maxAge, now);
    }
  }

  lemma ColonSep(sep: string)
    requires sep == ":"
    ensures TimestampSep(sep) && ForeignSep(sep) && !IsAlphabet(sep[0])
  {
    assert sep[0] == ':' && IsForeign(':');
  }

  /** A plain token is never read as a timestamped one: base64 data has no ".". */
  lemma PlainIsNotCompound(s: Signer, data: string, maxAge: Option<int>, now: int)
    requires Sign(s, data).Ok? && Unsign(s, Sign(s, data).value) == Ok(data)
    requires forall c :: c in data ==> IsAlphabet(c)
    ensures UnsignAt(s, Sign(s, data).value, maxAge, now) == Err(MalformedToken)
  {
    AlphabetLacks(data, ".");
    hide Unsign, Sign, Contains;
  }
}
