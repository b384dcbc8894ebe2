/**
 The four-way base64 fallback for uploaded artifact content, over the encodings
 of RFC 4648: section 4 (standard alphabet), section 5 (URL-safe alphabet) and
 section 3.2 (padding, kept or left out). As in the decoder the code calls, CR
 and LF in the input are skipped and unused low bits of the last digit are not
 checked.
 */
module Base64Fallback {
  import opened Options
  import opened Bytes

  datatype Encoding = Encoding(urlSafe: bool, padded: bool)

  const STD := Encoding(false, true)
  const RAW_STD := Encoding(false, false)
  const URL := Encoding(true, true)
  const RAW_URL := Encoding(true, false)

  const PAD: byte := 61 // '='

  type digit = d: int | 0 <= d < 64

  // ---- The alphabets ----

  function Letter(e: Encoding, d: digit): byte {
    if d < 26 then (d + 65) as byte
    else if d < 52 then (d + 71) as byte
    else if d < 62 then (d - 4) as byte
    else if d == 62 then (if e.urlSafe then 45 else 43)
    else (if e.urlSafe then 95 else 47)
  }

  function Digit(e: Encoding, b: byte): Option<digit> {
    if 65 <= b <= 90 then Some(b as int - 65)
    else if 97 <= b <= 122 then Some(b as int - 71)
    else if 48 <= b <= 57 then Some(b as int + 4)
    else if b == (if e.urlSafe then 45 else 43) then Some(62)
    else if b == (if e.urlSafe then 95 else 47) then Some(63)
    else None
  }

  // ---- Encoding ----

  function Quantum(e: Encoding, x: byte, y: byte, z: byte): bytes {
    [Letter(e, x as int / 4),
     Letter(e, x as int % 4 * 16 + y as int / 16),
     Letter(e, y as int % 16 * 4 + z as int / 64),
     Letter(e, z as int % 64)]
  }

  function Encode(e: Encoding, data: bytes): bytes {
    if data == [] then []
    else if |data| == 1 then Quantum(e, data[0], 0, 0)[..2] + if e.padded then [PAD, PAD] else []
    else if |data| == 2 then Quantum(e, data[0], data[1], 0)[..3] + if e.padded then [PAD] else []
    else Quantum(e, data[0], data[1], data[2]) + Encode(e, data[3..])
  }

  // ---- Decoding ----

  function Strip(s: bytes): bytes {
    if s == [] then [] else (if s[0] == CR || s[0] == LF then [] else [s[0]]) + Strip(s[1..])
  }

  function Octets(a: digit, b: digit, c: digit, d: digit): bytes {
    [(a * 4 + b / 16) as byte, (b % 16 * 16 + c / 4) as byte, (c % 4 * 64 + d) as byte]
  }

  /** The last, incomplete quantum: k = 2 or 3 digits, with the padding the encoding asks for. */
  function DecodeTail(e: Encoding, t: bytes): Option<bytes> {
    var k := if e.padded && |t| == 4 then (if t[2] == PAD && t[3] == PAD then 2 else if t[3] == PAD then 3 else 0)
             else if !e.padded && (|t| == 2 || |t| == 3) then |t| else 0;
    if k == 0 || Digit(e, t[0]).None? || Digit(e, t[1]).None? then None
    else if k == 2 then Some(Octets(Digit(e, t[0]).value, Digit(e, t[1]).value, 0, 0)[..1])
    else if Digit(e, t[2]).None? then None
    else Some(Octets(Digit(e, t[0]).value, Digit(e, t[1]).value, Digit(e, t[2]).value, 0)[..2])
  }

  predicate FullQuantum(e: Encoding, t: bytes) {
    |t| >= 4 && Digit(e, t[0]).Some? && Digit(e, t[1]).Some? && Digit(e, t[2]).Some? && Digit(e, t[3]).Some?
  }

  function DecodeText(e: Encoding, t: bytes): Option<bytes> {
    if t == [] then Some([])
    else if FullQuantum(e, t) then
      var rest := DecodeText(e, t[4..]);
      if rest.None? then None
      else Some(Octets(Digit(e, t[0]).value, Digit(e, t[1]).value, Digit(e, t[2]).value, Digit(e, t[3]).value) + rest.value)
    else DecodeTail(e, t)
  }

  function DecodeString(e: Encoding, s: bytes): Option<bytes> {
    DecodeText(e, Strip(s))
  }

  /** The chain: the first decoder that accepts decides. */
  function DecodeArtifactContent(s: bytes): Option<bytes> {
    if s == [] then None
    else if DecodeString(STD, s).Some? then DecodeString(STD, s)
    else if DecodeString(RAW_STD, s).Some? then DecodeString(RAW_STD, s)
    else if DecodeString(URL, s).Some? then DecodeString(URL, s)
    else DecodeString(RAW_URL, s)
  }

  // ---- No two decoders disagree ----

  /** A byte with a digit in both alphabets has the same digit in both; the pad has none. */
  lemma DigitsAgree(e: Encoding, f: Encoding, b: byte)
    ensures Digit(e, b).Some? && Digit(f, b).Some? ==> Digit(e, b) == Digit(f, b)
    ensures b == PAD ==> Digit(e, b).None?
  {
  }

  /** Whatever text two of the decoders both accept, they decode to the same bytes. */
  lemma {:induction false} DecodersAgree(e: Encoding, f: Encoding, t: bytes)
    requires DecodeText(e, t).Some? && DecodeText(f, t).Some?
    ensures DecodeText(e, t) == DecodeText(f, t)
  {
    forall i | 0 <= i < |t| ensures Digit(e, t[i]).Some? && Digit(f, t[i]).Some? ==> Digit(e, t[i]) == Digit(f, t[i]) {
      DigitsAgree(e, f, t[i]);
    }
    if FullQuantum(e, t) && FullQuantum(f, t) {
      DecodersAgree(e, f, t[4..]);
    }
  }

  /** So the order of the chain does not matter: it returns b iff the text is not empty and some decoder returns b. */
  lemma ChainIsAnyDecoder(s: bytes, b: bytes)
    ensures DecodeArtifactContent(s) == Some(b) <==> s != [] && exists e :: DecodeString(e, s) == Some(b)
  {
    if s != [] {
      forall e, f | DecodeString(e, s).Some? && DecodeString(f, s).Some? ensures DecodeString(e, s) == DecodeString(f, s) {
        DecodersAgree(e, f, Strip(s));
      }
      forall e ensures DecodeString(e, s) in [DecodeString(STD, s), DecodeString(RAW_STD, s), DecodeString(URL, s), DecodeString(RAW_URL, s)] {
        assert e == Encoding(e.urlSafe, e.padded);
      }
    }
  }

  // ---- Round trip ----

  lemma LetterDigit(e: Encoding, d: digit)
    ensures Digit(e, Letter(e, d)) == Some(d)
    ensures Letter(e, d) != PAD && Letter(e, d) != CR && Letter(e, d) != LF
  {
  }

  lemma QuantumOctets(e: Encoding, x: byte, y: byte, z: byte)
    ensures var q := Quantum(e, x, y, z);
            && FullQuantum(e, q) && (forall i :: 0 <= i < 4 ==> q[i] != PAD && q[i] != CR && q[i] != LF)
            && Octets(Digit(e, q[0]).value, Digit(e, q[1]).value, Digit(e, q[2]).value, Digit(e, q[3]).value) == [x, y, z]
  {
    LetterDigit(e, x as int / 4);
    LetterDigit(e, x as int % 4 * 16 + y as int / 16);
    LetterDigit(e, y as int % 16 * 4 + z as int / 64);
    LetterDigit(e, z as int % 64);
    OctetsOfSextets(x, y, z);
  }

  lemma OctetsOfSextets(x: byte, y: byte, z: byte)
    ensures Octets(x as int / 4, x as int % 4 * 16 + y as int / 16, y as int % 16 * 4 + z as int / 64, z as int % 64)
         == [x, y, z]
  {
  }

  lemma {:induction false} OneByteTail(e: Encoding, x: byte)
    ensures DecodeText(e, Encode(e, [x])) == Some([x])
  {
    QuantumOctets(e, x, 0, 0);
    DigitsAgree(e, e, PAD);
    var t, q := Encode(e, [x]), Quantum(e, x, 0, 0);
    assert t[0] == q[0] && t[1] == q[1];
    assert DecodeText(e, t) == DecodeTail(e, t);
    assert Octets(Digit(e, q[0]).value, Digit(e, q[1]).value, 0, 0)[..1] == [x];
  }

  lemma {:induction false} TwoByteTail(e: Encoding, x: byte, y: byte)
    ensures DecodeText(e, Encode(e, [x, y])) == Some([x, y])
  {
    QuantumOctets(e, x, y, 0);
    DigitsAgree(e, e, PAD);
    var t, q := Encode(e, [x, y]), Quantum(e, x, y, 0);
    assert t[0] == q[0] && t[1] == q[1] && t[2] == q[2];
    assert DecodeText(e, t) == DecodeTail(e, t);
    assert Octets(Digit(e, q[0]).value, Digit(e, q[1]).value, Digit(e, q[2]).value, 0)[..2] == [x, y];
  }

  lemma {:induction false} DecodeOfEncode(e: Encoding, data: bytes)
    ensures DecodeText(e, Encode(e, data)) == Some(data)
    decreases |data|
  {
    if |data| == 1 {
      OneByteTail(e, data[0]);
      assert data == [data[0]];
    } else if |data| == 2 {
      TwoByteTail(e, data[0], data[1]);
      assert data == [data[0], data[1]];
    } else if |data| >= 3 {
      var t, q := Encode(e, data), Quantum(e, data[0], data[1], data[2]);
      QuantumOctets(e, data[0], data[1], data[2]);
      DecodeOfEncode(e, data[3..]);
      assert t[0] == q[0] && t[1] == q[1] && t[2] == q[2] && t[3] == q[3] && t[4..] == Encode(e, data[3..]);
      assert data == [data[0], data[1], data[2]] + data[3..];
    }
  }

  lemma {:induction false} StripKeepsClean(t: bytes)
    requires forall i :: 0 <= i < |t| ==> t[i] != CR && t[i] != LF
    ensures Strip(t) == t
  {
    if t != [] { StripKeepsClean(t[1..]); }
  }

  lemma {:induction false} EncodeIsClean(e: Encoding, data: bytes)
    ensures forall i :: 0 <= i < |Encode(e, data)| ==> Encode(e, data)[i] != CR && Encode(e, data)[i] != LF
    decreases |data|
  {
    if data != [] {
      QuantumOctets(e, data[0], if |data| > 1 then data[1] else 0, if |data| > 2 then data[2] else 0);
      if |data| >= 3 { EncodeIsClean(e, data[3..]); }
    }
  }

  /** broken is text with CR (13) and LF (10) bytes put in anywhere. */
  predicate Broken(broken: bytes, text: bytes)
    decreases |broken|
  {
    if |broken| == 0 then |text| == 0
    else
      || ((broken[0] == 13 || broken[0] == 10) && Broken(broken[1..], text))
      || (|text| > 0 && broken[0] == text[0] && Broken(broken[1..], text[1..]))
  }

  lemma {:induction false} StripBroken(broken: bytes, text: bytes)
    requires Broken(broken, text) && forall i :: 0 <= i < |text| ==> text[i] != CR && text[i] != LF
    ensures Strip(broken) == text
    decreases |broken|
  {
    if |broken| > 0 {
      if broken[0] == 13 || broken[0] == 10 {
        StripBroken(broken[1..], text);
      } else {
        StripBroken(broken[1..], text[1..]);
        assert text == [text[0]] + text[1..];
      }
    }
  }

  lemma {:induction false} Unbroken(text: bytes)
    ensures Broken(text, text)
  {
    if |text| > 0 { Unbroken(text[1..]); }
  }

  /**
   Non-empty data in any of the four encodings, broken into lines anywhere or not at all,
   comes back unchanged through the chain.
   */
  lemma {:induction false} RoundTrip(e: Encoding, data: bytes, wrapped: bytes)
    requires data != [] && Broken(wrapped, Encode(e, data))
    ensures DecodeArtifactContent(wrapped) == Some(data)
  {
    EncodeIsClean(e, data);
    StripBroken(wrapped, Encode(e, data));
    DecodeOfEncode(e, data);
    EncodeNotEmpty(e, data);
    assert wrapped != [];
    assert DecodeString(e, wrapped) == Some(data);
    ChainIsAnyDecoder(wrapped, data);
  }

  lemma {:induction false} EncodeNotEmpty(e: Encoding, data: bytes)
    requires data != []
    ensures Encode(e, data) != []
  {
  }

  /** The unwrapped text is one such line breaking. */
  lemma {:induction false} RoundTripUnwrapped(e: Encoding, data: bytes)
    requires data != []
    ensures DecodeArtifactContent(Encode(e, data)) == Some(data)
  {
    Unbroken(Encode(e, data));
    RoundTrip(e, data, Encode(e, data));
  }

  // ---- What the decoders refuse ----

  /** A digit is a letter of the alphabet, and is read as the value that letter stands for. */
  lemma DigitIsLetter(e: Encoding, b: byte)
    ensures Digit(e, b).Some? ==> Letter(e, Digit(e, b).value) == b
  {
  }

  lemma SextetsOfOctets(a: digit, b: digit, c: digit, d: digit)
    ensures var o := Octets(a, b, c, d);
            && o[0] as int / 4 == a && o[0] as int % 4 * 16 + o[1] as int / 16 == b
            && o[1] as int % 16 * 4 + o[2] as int / 64 == c && o[2] as int % 64 == d
  {
  }

  lemma QuantumOfSextets(e: Encoding, o: bytes, a: digit, b: digit, c: digit, d: digit)
    requires |o| == 3
    requires o[0] as int / 4 == a && o[0] as int % 4 * 16 + o[1] as int / 16 == b
    requires o[1] as int % 16 * 4 + o[2] as int / 64 == c && o[2] as int % 64 == d
    ensures Quantum(e, o[0], o[1], o[2]) == [Letter(e, a), Letter(e, b), Letter(e, c), Letter(e, d)]
  {
  }

  lemma QuantumOfOctets(e: Encoding, t: bytes)
    requires |t| >= 4 && FullQuantum(e, t)
    ensures var o := Octets(Digit(e, t[0]).value, Digit(e, t[1]).value, Digit(e, t[2]).value, Digit(e, t[3]).value);
            Quantum(e, o[0], o[1], o[2]) == t[..4]
  {
    var a, b, c, d := Digit(e, t[0]).value, Digit(e, t[1]).value, Digit(e, t[2]).value, Digit(e, t[3]).value;
    DigitIsLetter(e, t[0]);
    DigitIsLetter(e, t[1]);
    DigitIsLetter(e, t[2]);
    DigitIsLetter(e, t[3]);
    assert t[..4] == [Letter(e, a), Letter(e, b), Letter(e, c), Letter(e, d)];
    QuantumOfDigits(e, a, b, c, d);
  }

  lemma QuantumOfDigits(e: Encoding, a: digit, b: digit, c: digit, d: digit)
    ensures var o := Octets(a, b, c, d);
            Quantum(e, o[0], o[1], o[2]) == [Letter(e, a), Letter(e, b), Letter(e, c), Letter(e, d)]
  {
    SextetsOfOctets(a, b, c, d);
    QuantumOfSextets(e, Octets(a, b, c, d), a, b, c, d);
  }

  /** The texts are the same but for the last digit of data that does not fill its last quantum: its low bits are unused. */
  predicate SameButUnusedBits(t: bytes, u: bytes, data: bytes) {
    |t| == |u| && forall i :: 0 <= i < |t| ==> t[i] == u[i] || (|data| % 3 != 0 && i == |data| / 3 * 4 + |data| % 3)
  }

  lemma {:induction false} TailIsEncoding(e: Encoding, t: bytes)
    requires DecodeTail(e, t).Some?
    ensures SameButUnusedBits(t, Encode(e, DecodeTail(e, t).value), DecodeTail(e, t).value)
  {
    var data := DecodeTail(e, t).value;
    var a, b := Digit(e, t[0]).value, Digit(e, t[1]).value;
    DigitIsLetter(e, t[0]);
    DigitIsLetter(e, t[1]);
    SextetsOfOctets(a, b, 0, 0);
    if |data| == 2 {
      DigitIsLetter(e, t[2]);
      SextetsOfOctets(a, b, Digit(e, t[2]).value, 0);
    }
  }

  lemma SameAfterQuantum(q: bytes, t: bytes, u: bytes, o: bytes, data: bytes)
    requires |q| == 4 && |o| == 3 && SameButUnusedBits(t, u, data)
    ensures SameButUnusedBits(q + t, q + u, o + data)
  {
    assert |o + data| / 3 == |data| / 3 + 1 && |o + data| % 3 == |data| % 3;
  }

  /** A decoder accepts nothing but the encoding of what it returns, up to unused bits of the last digit. */
  lemma {:induction false} AcceptedIsEncoding(e: Encoding, t: bytes)
    requires DecodeText(e, t).Some?
    ensures var data := DecodeText(e, t).value;
            SameButUnusedBits(t, Encode(e, data), data)
    decreases |t|
  {
    if t != [] {
      if FullQuantum(e, t) {
        var o := Octets(Digit(e, t[0]).value, Digit(e, t[1]).value, Digit(e, t[2]).value, Digit(e, t[3]).value);
        var rest := DecodeText(e, t[4..]).value;
        AcceptedIsEncoding(e, t[4..]);
        QuantumOfOctets(e, t);
        SameAfterQuantum(t[..4], t[4..], Encode(e, rest), o, rest);
        assert t == t[..4] + t[4..];
        EncodeMore(e, o, rest);
      } else {
        TailIsEncoding(e, t);
      }
    }
  }

  lemma {:induction false} EncodeMore(e: Encoding, o: bytes, rest: bytes)
    requires |o| == 3
    ensures Encode(e, o + rest) == Quantum(e, o[0], o[1], o[2]) + Encode(e, rest)
  {
    assert (o + rest)[3..] == rest;
  }

  /** So what the chain returns is encoded in the text it was given, in one of the four encodings, line breaks aside. */
  lemma {:induction false} ChainReturnsEncoded(s: bytes)
    requires DecodeArtifactContent(s).Some?
    ensures var data := DecodeArtifactContent(s).value;
            exists e, text :: Broken(s, text) && SameButUnusedBits(text, Encode(e, data), data)
  {
    var data := DecodeArtifactContent(s).value;
    ChainIsAnyDecoder(s, data);
    var e :| DecodeString(e, s) == Some(data);
    AcceptedIsEncoding(e, Strip(s));
    BrokenFromStrip(s);
  }

  lemma {:induction false} BrokenFromStrip(s: bytes)
    ensures Broken(s, Strip(s))
  {
    if |s| > 0 {
      var rest := Strip(s[1..]);
      BrokenFromStrip(s[1..]);
      if s[0] == CR || s[0] == LF {
        assert Strip(s) == [] + rest == rest;
      } else {
        assert Strip(s) == [s[0]] + rest && ([s[0]] + rest)[1..] == rest;
      }
    }
  }
}
