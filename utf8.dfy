/** UTF-8 well-formedness as RFC 3629 defines it, and the validation that Rust's
    `str::from_utf8` performs on a byte slice.

    Three views of the same set of byte sequences:
    - the byte-sequence syntax of section 4 of RFC 3629 (`ValidChar`, `WellFormed`);
    - the encoding of Unicode scalar values of section 3 of RFC 3629 (`EncodeScalar`, `Encode`);
    - the validator that stops at the first ill-formed position (`Validate`).
    The lemmas below prove that all three agree. */
module Utf8 {
  import opened Wrappers
  import opened Bytes

  /** A Unicode scalar value: a code point up to U+10FFFF that is not a surrogate. */
  type Scalar = cp: int | 0 <= cp <= 0x10FFFF && !(0xD800 <= cp <= 0xDFFF)

  /** UTF8-tail = %x80-BF */
  predicate IsTail(b: byte) {
    0x80 <= b <= 0xBF
  }

  /** The length of the character that a lead byte announces; 0 for a byte that can begin
      no well-formed character (a tail byte, the overlong leads C0 and C1, and F5-FF). */
  function LeadWidth(b: byte): (n: nat)
    ensures n <= 4
    ensures n == 0 <==> (0x80 <= b <= 0xC1 || 0xF5 <= b)
  {
    if b <= 0x7F then 1
    else if 0xC2 <= b <= 0xDF then 2
    else if 0xE0 <= b <= 0xEF then 3
    else if 0xF0 <= b <= 0xF4 then 4
    else 0
  }

  /** One character of the section-4 grammar: UTF8-1, UTF8-2, UTF8-3 or UTF8-4. The second
      byte ranges after E0, ED, F0 and F4 exclude overlong forms, surrogates and code points
      above U+10FFFF. */
  predicate ValidChar(c: seq<byte>) {
    match |c|
    case 1 => c[0] <= 0x7F
    case 2 => 0xC2 <= c[0] <= 0xDF && IsTail(c[1])
    case 3 =>
      && (|| (c[0] == 0xE0 && 0xA0 <= c[1] <= 0xBF)
          || (0xE1 <= c[0] <= 0xEC && IsTail(c[1]))
          || (c[0] == 0xED && 0x80 <= c[1] <= 0x9F)
          || (0xEE <= c[0] <= 0xEF && IsTail(c[1])))
      && IsTail(c[2])
    case 4 =>
      && (|| (c[0] == 0xF0 && 0x90 <= c[1] <= 0xBF)
          || (0xF1 <= c[0] <= 0xF3 && IsTail(c[1]))
          || (c[0] == 0xF4 && 0x80 <= c[1] <= 0x8F))
      && IsTail(c[2]) && IsTail(c[3])
    case _ => false
  }

  /** Whether a well-formed character starts at position `k` of `s`. */
  predicate CharStartsAt(s: seq<byte>, k: nat)
    requires k < |s|
  {
    var n := LeadWidth(s[k]);
    0 < n && k + n <= |s| && ValidChar(s[k..k + n])
  }

  /** UTF8-octets = *( UTF8-char ): the sequence splits into well-formed characters. The lead
      byte fixes each character's length, so the split is unique. */
  predicate WellFormed(s: seq<byte>)
    decreases |s|
  {
    s == [] || (CharStartsAt(s, 0) && WellFormed(s[LeadWidth(s[0])..]))
  }

  /** A well-formed character has exactly the length its lead byte announces. */
  lemma ValidCharWidth(c: seq<byte>)
    requires ValidChar(c)
    ensures |c| == LeadWidth(c[0])
  {
  }

  // ---------------------------------------------------------------------------------------
  // Section 3 of RFC 3629: the encoding of scalar values.

  /** The UTF-8 encoding of one scalar value: 7, 11, 16 or 21 significant bits spread over
      one to four bytes. */
  function EncodeScalar(cp: Scalar): (c: seq<byte>)
    ensures 1 <= |c| <= 4
  {
    if cp < 0x80 then [cp]
    else if cp < 0x800 then [0xC0 + cp / 64, 0x80 + cp % 64]
    else if cp < 0x10000 then [0xE0 + cp / 4096, 0x80 + cp / 64 % 64, 0x80 + cp % 64]
    else [0xF0 + cp / 262144, 0x80 + cp / 4096 % 64, 0x80 + cp / 64 % 64, 0x80 + cp % 64]
  }

  /** The scalar value a well-formed character encodes. */
  function DecodeChar(c: seq<byte>): (cp: Scalar)
    requires ValidChar(c)
  {
    var b0: int := c[0];
    if |c| == 1 then b0
    else if |c| == 2 then (b0 - 0xC0) * 64 + TailBits(c[1])
    else if |c| == 3 then (b0 - 0xE0) * 4096 + TailBits(c[1]) * 64 + TailBits(c[2])
    else (b0 - 0xF0) * 262144 + TailBits(c[1]) * 4096 + TailBits(c[2]) * 64 + TailBits(c[3])
  }

  /** The six payload bits of a byte in a tail position. */
  function TailBits(b: byte): int {
    b as int - 0x80
  }

  /** Division by 64 splits a number into its quotient and its low six bits. */
  lemma Split64(x: int, q: int, r: int)
    requires 0 <= r < 64 && x == q * 64 + r
    ensures x / 64 == q && x % 64 == r
  {
  }

  /** Every scalar value encodes to a character of the section-4 grammar, and decoding it
      gives the scalar value back. */
  lemma EncodeScalarValid(cp: Scalar)
    ensures ValidChar(EncodeScalar(cp))
    ensures DecodeChar(EncodeScalar(cp)) == cp
  {
    var c := EncodeScalar(cp);
    if cp < 0x80 {
    } else if cp < 0x800 {
      assert DecodeChar(c) == (cp / 64) * 64 + cp % 64;
    } else if cp < 0x10000 {
      var hi := cp / 64;
      Split64(hi, hi / 64, hi % 64);
      assert cp / 4096 == hi / 64;
      assert DecodeChar(c) == ((hi / 64) * 64 + hi % 64) * 64 + cp % 64;
    } else {
      var hi := cp / 64;
      var top := hi / 64;
      assert cp / 4096 == top;
      assert cp / 262144 == top / 64;
      assert DecodeChar(c) == (((top / 64) * 64 + top % 64) * 64 + hi % 64) * 64 + cp % 64;
    }
  }

  /** Every character of the section-4 grammar is the encoding of the scalar value it
      decodes to: the grammar admits no byte sequence the encoder does not produce. */
  lemma DecodeCharEncodes(c: seq<byte>)
    requires ValidChar(c)
    ensures EncodeScalar(DecodeChar(c)) == c
  {
    var cp := DecodeChar(c);
    var b0: int := c[0];
    if |c| == 2 {
      Split64(cp, b0 - 0xC0, TailBits(c[1]));
    } else if |c| == 3 {
      var hi := (b0 - 0xE0) * 64 + TailBits(c[1]);
      Split64(cp, hi, TailBits(c[2]));
      Split64(hi, b0 - 0xE0, TailBits(c[1]));
      assert cp / 4096 == hi / 64;
    } else if |c| == 4 {
      var top := (b0 - 0xF0) * 64 + TailBits(c[1]);
      var hi := top * 64 + TailBits(c[2]);
      Split64(cp, hi, TailBits(c[3]));
      Split64(hi, top, TailBits(c[2]));
      Split64(top, b0 - 0xF0, TailBits(c[1]));
      assert cp / 4096 == top;
      assert cp / 262144 == b0 - 0xF0;
    }
  }

  /** The encoding of a sequence of scalar values. */
  function Encode(cps: seq<Scalar>): seq<byte> {
    if cps == [] then [] else EncodeScalar(cps[0]) + Encode(cps[1..])
  }

  /** The scalar values a well-formed sequence encodes. */
  function Decode(s: seq<byte>): seq<Scalar>
    requires WellFormed(s)
    decreases |s|
  {
    if s == [] then [] else [DecodeChar(s[..LeadWidth(s[0])])] + Decode(s[LeadWidth(s[0])..])
  }

  /** Encoding any sequence of scalar values yields a well-formed sequence, from which
      decoding recovers the scalar values. */
  lemma {:induction false} EncodeWellFormed(cps: seq<Scalar>)
    ensures WellFormed(Encode(cps))
    ensures Decode(Encode(cps)) == cps
  {
    if cps != [] {
      var c, rest := EncodeScalar(cps[0]), Encode(cps[1..]);
      var s := c + rest;
      EncodeScalarValid(cps[0]);
      ValidCharWidth(c);
      assert s[..|c|] == c && s[|c|..] == rest;
      EncodeWellFormed(cps[1..]);
    }
  }

  /** Decoding a well-formed sequence and encoding the result gives the same bytes back. */
  lemma {:induction false} DecodeEncode(s: seq<byte>)
    requires WellFormed(s)
    ensures Encode(Decode(s)) == s
    decreases |s|
  {
    if s != [] {
      var n := LeadWidth(s[0]);
      DecodeEncodeFirst(s);
      DecodeEncode(s[n..]);
      assert s == s[..n] + s[n..];
    }
  }

  /** Re-encoding the first decoded scalar value gives back the first character. */
  lemma DecodeEncodeFirst(s: seq<byte>)
    requires WellFormed(s) && s != []
    ensures WellFormed(s[LeadWidth(s[0])..])
    ensures Encode(Decode(s)) == s[..LeadWidth(s[0])] + Encode(Decode(s[LeadWidth(s[0])..]))
  {
    var n := LeadWidth(s[0]);
    var cps := Decode(s);
    assert cps[0] == DecodeChar(s[..n]) && cps[1..] == Decode(s[n..]);
    DecodeCharEncodes(s[..n]);
  }

  /** The section-4 grammar and the section-3 encoding describe the same byte sequences. */
  lemma WellFormedIffEncoding(s: seq<byte>)
    ensures WellFormed(s) <==> exists cps :: Encode(cps) == s
  {
    if WellFormed(s) {
      DecodeEncode(s);
    }
    forall cps | Encode(cps) == s
      ensures WellFormed(s)
    {
      EncodeWellFormed(cps);
    }
  }

  // ---------------------------------------------------------------------------------------
  // Validation, as `str::from_utf8` reports it.

  /** The failure `str::from_utf8` reports: the length of the longest well-formed prefix.
      The standard library renders it as a message; the model keeps the position. */
  datatype Utf8Error = Utf8Error(validUpTo: nat)

  /** Checks the bytes character by character and stops at the first position where no
      well-formed character starts. */
  function Validate(s: seq<byte>): (r: Result<(), Utf8Error>)
    ensures r.Err? ==> r.error.validUpTo < |s|
    decreases |s|
  {
    if s == [] then Ok(())
    else if !CharStartsAt(s, 0) then Err(Utf8Error(0))
    else
      var n := LeadWidth(s[0]);
      match Validate(s[n..])
      case Ok(_) => Ok(())
      case Err(e) => Err(Utf8Error(n + e.validUpTo))
  }

  /** The validator accepts exactly the well-formed sequences. */
  lemma {:induction false} ValidateAcceptsWellFormed(s: seq<byte>)
    ensures Validate(s).Ok? <==> WellFormed(s)
    decreases |s|
  {
    if s != [] && CharStartsAt(s, 0) {
      ValidateAcceptsWellFormed(s[LeadWidth(s[0])..]);
    }
  }

  /** On failure, the bytes before the reported position are well-formed and no
      well-formed character starts at it. */
  lemma {:induction false} ValidUpToIsValid(s: seq<byte>)
    requires Validate(s).Err?
    ensures var k := Validate(s).error.validUpTo;
      k < |s| && WellFormed(s[..k]) && !CharStartsAt(s, k)
    decreases |s|
  {
    if CharStartsAt(s, 0) {
      var n := LeadWidth(s[0]);
      var rest := s[n..];
      assert Validate(s).error.validUpTo == n + Validate(rest).error.validUpTo;
      ValidUpToIsValid(rest);
      var k' := Validate(rest).error.validUpTo;
      var k := n + k';
      PrefixStartsWithChar(s, n, k);
      CharStartsAtShift(s, n, k');
    }
  }

  /** A prefix that extends past a well-formed first character and is well-formed after
      it is well-formed. */
  lemma PrefixStartsWithChar(s: seq<byte>, n: nat, k: nat)
    requires 0 < |s| && CharStartsAt(s, 0) && n == LeadWidth(s[0]) && n <= k <= |s|
    requires WellFormed(s[n..][..k - n])
    ensures WellFormed(s[..k])
  {
    var p := s[..k];
    assert p[0] == s[0];
    assert p[..n] == s[..n];
    assert p[n..] == s[n..][..k - n];
  }

  /** Whether a character starts at a position does not change when a prefix is dropped. */
  lemma CharStartsAtShift(s: seq<byte>, n: nat, k: nat)
    requires n + k < |s|
    ensures CharStartsAt(s, n + k) == CharStartsAt(s[n..], k)
  {
    var rest := s[n..];
    var w := LeadWidth(s[n + k]);
    assert rest[k] == s[n + k];
    if 0 < w && n + k + w <= |s| {
      assert s[n + k..n + k + w] == rest[k..k + w];
    }
  }

  /** The reported position is the longest well-formed prefix: no longer prefix of the input
      is well-formed. */
  lemma {:induction false} ValidUpToIsMaximal(s: seq<byte>, j: nat)
    requires Validate(s).Err?
    requires Validate(s).error.validUpTo < j <= |s|
    ensures !WellFormed(s[..j])
    decreases |s|
  {
    if CharStartsAt(s, 0) {
      var n := LeadWidth(s[0]);
      var rest := s[n..];
      ValidUpToIsMaximal(rest, j - n);
      assert s[..j][n..] == rest[..j - n];
      assert s[..j][0] == s[0];
    } else {
      var p := s[..j];
      assert p[0] == s[0];
      if LeadWidth(s[0]) <= j {
        assert p[0..LeadWidth(s[0])] == s[0..LeadWidth(s[0])];
      }
    }
  }
}
