/**
 * UTF-8 as RFC 3629 section 4 defines it, and as Rust's `std::str::from_utf8`
 * checks it when rdkafka's `payload_view::<str>()` turns a payload into a `&str`.
 *
 * `ScanChar` and `DecodeFrom` follow the validator: they look at the lead byte,
 * then at each continuation byte, and report where and how validation stopped
 * (`Utf8Error`, with Rust's `valid_up_to` and `error_len`). `WellFormed` is the
 * grammar of section 4 written out rule by rule; the lemmas show that the
 * validator accepts exactly that language, that decoding and encoding are
 * inverse, and what the error position means.
 */
module Utf8 {
  import opened Primitives

  /**
   * Rust's `Utf8Error`: `validUpTo` is the length of the longest valid prefix;
   * `errorLen` is `Some(n)` when the `n` bytes at `validUpTo` are the longest
   * stretch there that begins some UTF8-char (one byte if none does) and the
   * byte after them cannot continue it (`InvalidMaximalSubpart`), and `None`
   * when the input ended in the middle of a sequence.
   */
  datatype Utf8Error = Utf8Error(validUpTo: nat, errorLen: Option<nat>)

  /** What the validator finds at the start of a non-empty byte sequence. */
  datatype Scan =
    | Char(len: nat, c: char)   // a complete sequence of `len` bytes encoding `c`
    | Invalid(len: nat)         // the longest stretch of `len` bytes that begins a UTF8-char (1 if none does), not continued by the next byte
    | Incomplete                // the bytes run out before the sequence is complete

  /** UTF8-tail of RFC 3629 section 4. */
  predicate IsTail(x: byte) {
    0x80 <= x <= 0xBF
  }

  /** UTF8-char of RFC 3629 section 4, one alternative of the grammar per line. */
  predicate IsUtf8Char(s: seq<byte>) {
    || (|s| == 1 && s[0] <= 0x7F)
    || (|s| == 2 && 0xC2 <= s[0] <= 0xDF && IsTail(s[1]))
    || (|s| == 3 && s[0] == 0xE0 && 0xA0 <= s[1] <= 0xBF && IsTail(s[2]))
    || (|s| == 3 && 0xE1 <= s[0] <= 0xEC && IsTail(s[1]) && IsTail(s[2]))
    || (|s| == 3 && s[0] == 0xED && 0x80 <= s[1] <= 0x9F && IsTail(s[2]))
    || (|s| == 3 && 0xEE <= s[0] <= 0xEF && IsTail(s[1]) && IsTail(s[2]))
    || (|s| == 4 && s[0] == 0xF0 && 0x90 <= s[1] <= 0xBF && IsTail(s[2]) && IsTail(s[3]))
    || (|s| == 4 && 0xF1 <= s[0] <= 0xF3 && IsTail(s[1]) && IsTail(s[2]) && IsTail(s[3]))
    || (|s| == 4 && s[0] == 0xF4 && 0x80 <= s[1] <= 0x8F && IsTail(s[2]) && IsTail(s[3]))
  }

  /** UTF8-octets of RFC 3629 section 4: a sequence of UTF8-char. */
  predicate WellFormed(b: seq<byte>)
    decreases |b|
  {
    || b == []
    || exists n :: 1 <= n <= 4 && n <= |b| && IsUtf8Char(b[..n]) && WellFormed(b[n..])
  }

  /** Length of the sequence a lead byte announces; 0 for a byte that cannot lead. */
  function Width(lead: byte): nat {
    if lead <= 0x7F then 1
    else if 0xC2 <= lead <= 0xDF then 2
    else if 0xE0 <= lead <= 0xEF then 3
    else if 0xF0 <= lead <= 0xF4 then 4
    else 0
  }

  /** Smallest second byte allowed after `lead` (excludes overlong forms). */
  function SecondLow(lead: byte): byte {
    if lead == 0xE0 then 0xA0 else if lead == 0xF0 then 0x90 else 0x80
  }

  /** Largest second byte allowed after `lead` (excludes surrogates and values above U+10FFFF). */
  function SecondHigh(lead: byte): byte {
    if lead == 0xED then 0x9F else if lead == 0xF4 then 0x8F else 0xBF
  }

  /** Validates and decodes the sequence at the start of `b`, byte by byte as the validator does. */
  function ScanChar(b: seq<byte>): (r: Scan)
    requires |b| > 0
    ensures r.Char? ==> 1 <= r.len <= 4 && r.len <= |b|
    ensures r.Invalid? ==> 1 <= r.len <= 3 && r.len <= |b|
    ensures r.Incomplete? ==> |b| <= 3
  {
    var w := Width(b[0]);
    if w == 1 then Char(1, (b[0] as int) as char)
    else if w == 0 then Invalid(1)
    else if |b| < 2 then Incomplete
    else if !(SecondLow(b[0]) <= b[1] <= SecondHigh(b[0])) then Invalid(1)
    else if w == 2 then
      Char(2, ((b[0] as int - 0xC0) * 0x40 + (b[1] as int - 0x80)) as char)
    else if |b| < 3 then Incomplete
    else if !IsTail(b[2]) then Invalid(2)
    else if w == 3 then
      Char(3, ((b[0] as int - 0xE0) * 0x1000 + (b[1] as int - 0x80) * 0x40 + (b[2] as int - 0x80)) as char)
    else if |b| < 4 then Incomplete
    else if !IsTail(b[3]) then Invalid(3)
    else
      Char(4, ((b[0] as int - 0xF0) * 0x4_0000 + (b[1] as int - 0x80) * 0x1000
               + (b[2] as int - 0x80) * 0x40 + (b[3] as int - 0x80)) as char)
  }

  /** `std::str::from_utf8` on `b`, where `offset` bytes before `b` were already found valid. */
  function DecodeFrom(b: seq<byte>, offset: nat): Result<string, Utf8Error>
    decreases |b|
  {
    if b == [] then Ok([])
    else match ScanChar(b)
      case Incomplete => Err(Utf8Error(offset, None))
      case Invalid(n) => Err(Utf8Error(offset, Some(n)))
      case Char(n, c) =>
        match DecodeFrom(b[n..], offset + n)
        case Ok(s) => Ok([c] + s)
        case Err(e) => Err(e)
  }

  /** `std::str::from_utf8(b)`. */
  function Decode(b: seq<byte>): Result<string, Utf8Error> {
    DecodeFrom(b, 0)
  }

  /** The UTF-8 bytes of one scalar value (the bytes of a Rust `char` inside a `str`). */
  function EncodeChar(c: char): seq<byte> {
    var v := c as int;
    if v <= 0x7F then [v as byte]
    else if v <= 0x7FF then [(0xC0 + v / 0x40) as byte, (0x80 + v % 0x40) as byte]
    else if v <= 0xFFFF then
      [(0xE0 + v / 0x1000) as byte, (0x80 + v / 0x40 % 0x40) as byte, (0x80 + v % 0x40) as byte]
    else
      [(0xF0 + v / 0x4_0000) as byte, (0x80 + v / 0x1000 % 0x40) as byte,
       (0x80 + v / 0x40 % 0x40) as byte, (0x80 + v % 0x40) as byte]
  }

  /** `str::as_bytes`: the bytes that represent a string. */
  function Encode(s: string): seq<byte>
    decreases |s|
  {
    if s == [] then [] else EncodeChar(s[0]) + Encode(s[1..])
  }

  // ---------------------------------------------------------------------------
  // Encoding a scalar value, then validating it, gives the scalar value back.

  /** The encoding of `c` is one UTF8-char of the length the grammar gives its range, and the validator reads it back as `c`. */
  lemma EncodeCharScans(c: char, rest: seq<byte>)
    ensures 1 <= |EncodeChar(c)| <= 4
    ensures IsUtf8Char(EncodeChar(c))
    ensures ScanChar(EncodeChar(c) + rest) == Char(|EncodeChar(c)|, c)
  {
    var v := c as int;
    if v <= 0x7F {
      assert (EncodeChar(c) + rest)[0] as int == v;
    } else if v <= 0x7FF {
      EncodeScans2(c, rest);
    } else if v <= 0xFFFF {
      EncodeScans3(c, rest);
    } else {
      EncodeScans4(c, rest);
    }
  }

  lemma EncodeScans2(c: char, rest: seq<byte>)
    requires 0x80 <= c as int <= 0x7FF
    ensures |EncodeChar(c)| == 2 && IsUtf8Char(EncodeChar(c))
    ensures ScanChar(EncodeChar(c) + rest) == Char(2, c)
  {
    var v := c as int;
    var b := EncodeChar(c) + rest;
    assert b[0] as int == 0xC0 + v / 0x40 && b[1] as int == 0x80 + v % 0x40;
    assert (v / 0x40) * 0x40 + v % 0x40 == v;
  }

  lemma EncodeScans3(c: char, rest: seq<byte>)
    requires 0x800 <= c as int <= 0xFFFF
    ensures |EncodeChar(c)| == 3 && IsUtf8Char(EncodeChar(c))
    ensures ScanChar(EncodeChar(c) + rest) == Char(3, c)
  {
    var v := c as int;
    var b := EncodeChar(c) + rest;
    var q := v / 0x40;
    assert v / 0x1000 == q / 0x40;
    assert b[0] as int == 0xE0 + q / 0x40 && b[1] as int == 0x80 + q % 0x40 && b[2] as int == 0x80 + v % 0x40;
    assert q * 0x40 + v % 0x40 == v;
    assert (q / 0x40) * 0x40 + q % 0x40 == q;
  }

  lemma EncodeScans4(c: char, rest: seq<byte>)
    requires 0x1_0000 <= c as int
    ensures |EncodeChar(c)| == 4 && IsUtf8Char(EncodeChar(c))
    ensures ScanChar(EncodeChar(c) + rest) == Char(4, c)
  {
    var v := c as int;
    var b := EncodeChar(c) + rest;
    var q := v / 0x40;
    var r := q / 0x40;
    assert v / 0x1000 == r;
    assert v / 0x4_0000 == r / 0x40;
    assert b[0] as int == 0xF0 + r / 0x40 && b[1] as int == 0x80 + r % 0x40;
    assert b[2] as int == 0x80 + q % 0x40 && b[3] as int == 0x80 + v % 0x40;
    assert q * 0x40 + v % 0x40 == v;
    assert r * 0x40 + q % 0x40 == q;
    assert (r / 0x40) * 0x40 + r % 0x40 == r;
  }

  /** Validating a character's encoding followed by more bytes consumes the character and goes on after it. */
  lemma DecodeCons(c: char, rest: seq<byte>, offset: nat)
    ensures DecodeFrom(EncodeChar(c) + rest, offset) ==
      match DecodeFrom(rest, offset + |EncodeChar(c)|)
      case Ok(s) => Ok([c] + s)
      case Err(e) => Err(e)
  {
    EncodeCharScans(c, rest);
    assert (EncodeChar(c) + rest)[|EncodeChar(c)|..] == rest;
  }

  /** Decoding the bytes of a string gives the string back. */
  lemma {:induction false} DecodeEncode(s: string, offset: nat)
    ensures DecodeFrom(Encode(s), offset) == Ok(s)
    decreases |s|
  {
    if s != [] {
      var c, t := s[0], s[1..];
      assert s == [c] + t;
      EncodeCons(c, t);
      DecodeCons(c, Encode(t), offset);
      DecodeEncode(t, offset + |EncodeChar(c)|);
    }
  }

  /** The bytes of a string that starts with `c` are `c`'s bytes followed by the bytes of the rest. */
  lemma EncodeCons(c: char, t: string)
    ensures Encode([c] + t) == EncodeChar(c) + Encode(t)
  {
    assert ([c] + t)[1..] == t;
  }

  /** The string `from_utf8` returns is represented by exactly the input bytes. */
  lemma {:induction false} EncodeDecode(b: seq<byte>, offset: nat)
    ensures DecodeFrom(b, offset).Ok? ==> Encode(DecodeFrom(b, offset).value) == b
    decreases |b|
  {
    if b != [] && DecodeFrom(b, offset).Ok? {
      var n := ScanChar(b).len;
      EncodeDecode(b[n..], offset + n);
      CharThenRest(b, DecodeFrom(b[n..], offset + n).value);
    }
  }

  /** A character the validator accepts, followed by a string whose bytes are the rest of the input, has the input as its bytes. */
  lemma CharThenRest(b: seq<byte>, t: string)
    requires b != [] && ScanChar(b).Char? && Encode(t) == b[ScanChar(b).len..]
    ensures Encode([ScanChar(b).c] + t) == b
  {
    ScanCharEncodes(b);
    ConsBytes(ScanChar(b).c, t, b, ScanChar(b).len);
  }

  lemma ConsBytes(c: char, t: string, b: seq<byte>, n: nat)
    requires n <= |b| && EncodeChar(c) == b[..n] && Encode(t) == b[n..]
    ensures Encode([c] + t) == b
  {
    EncodeCons(c, t);
    assert b == b[..n] + b[n..];
  }

  /** A sequence the validator accepts is the encoding of the scalar value it yields. */
  lemma ScanCharEncodes(b: seq<byte>)
    requires |b| > 0
    ensures ScanChar(b).Char? ==> EncodeChar(ScanChar(b).c) == b[..ScanChar(b).len]
  {
    var sc := ScanChar(b);
    if sc.Char? {
      if sc.len == 1 {
        assert sc.c as int == b[0] as int;
      } else if sc.len == 2 {
        ScanEncodes2(b);
      } else if sc.len == 3 {
        ScanEncodes3(b);
      } else {
        ScanEncodes4(b);
      }
    }
  }

  lemma ScanEncodes2(b: seq<byte>)
    requires |b| > 0 && ScanChar(b).Char? && ScanChar(b).len == 2
    ensures EncodeChar(ScanChar(b).c) == b[..2]
  {
    var v := ScanChar(b).c as int;
    var d0, d1 := b[0] as int - 0xC0, b[1] as int - 0x80;
    assert v == d0 * 0x40 + d1;
    assert v / 0x40 == d0 && v % 0x40 == d1;
  }

  lemma ScanEncodes3(b: seq<byte>)
    requires |b| > 0 && ScanChar(b).Char? && ScanChar(b).len == 3
    ensures EncodeChar(ScanChar(b).c) == b[..3]
  {
    var v := ScanChar(b).c as int;
    var d0, d1, d2 := b[0] as int - 0xE0, b[1] as int - 0x80, b[2] as int - 0x80;
    var q := d0 * 0x40 + d1;
    assert v == q * 0x40 + d2;
    assert v / 0x40 == q && v % 0x40 == d2;
    assert q / 0x40 == d0 && q % 0x40 == d1;
    assert v / 0x1000 == d0;
  }

  lemma ScanEncodes4(b: seq<byte>)
    requires |b| > 0 && ScanChar(b).Char? && ScanChar(b).len == 4
    ensures EncodeChar(ScanChar(b).c) == b[..4]
  {
    var v := ScanChar(b).c as int;
    var d0, d1, d2, d3 := b[0] as int - 0xF0, b[1] as int - 0x80, b[2] as int - 0x80, b[3] as int - 0x80;
    var r := d0 * 0x40 + d1;
    var q := r * 0x40 + d2;
    assert v == q * 0x40 + d3;
    assert v / 0x40 == q && v % 0x40 == d3;
    assert q / 0x40 == r && q % 0x40 == d2;
    assert r / 0x40 == d0 && r % 0x40 == d1;
    assert v / 0x1000 == r && v / 0x4_0000 == d0;
  }

  // ---------------------------------------------------------------------------
  // The validator accepts exactly the language of RFC 3629 section 4.

  /** The validator reads an `n`-byte character at the start of `b` exactly when those `n` bytes are a UTF8-char. */
  lemma ScanMatchesGrammar(b: seq<byte>, n: nat)
    requires 1 <= n <= |b|
    ensures IsUtf8Char(b[..n]) <==> ScanChar(b).Char? && ScanChar(b).len == n
  {
    var p := b[..n];
    if n >= 2 { assert p[1] == b[1]; }
    if n >= 3 { assert p[2] == b[2]; }
    if n >= 4 { assert p[3] == b[3]; }
  }

  /** Validation of a character only looks at the character's own bytes. */
  lemma ScanPrefix(b: seq<byte>, k: nat)
    requires 1 <= k <= |b|
    ensures ScanChar(b[..k]).Char? ==> ScanChar(b) == ScanChar(b[..k])
  {
    var p := b[..k];
    if k >= 2 { assert p[1] == b[1]; }
    if k >= 3 { assert p[2] == b[2]; }
    if k >= 4 { assert p[3] == b[3]; }
  }

  /** A non-empty well-formed sequence starts with a character the validator accepts, followed by a well-formed rest. */
  lemma WellFormedHead(b: seq<byte>)
    requires b != [] && WellFormed(b)
    ensures ScanChar(b).Char? && WellFormed(b[ScanChar(b).len..])
  {
    var n :| 1 <= n <= 4 && n <= |b| && IsUtf8Char(b[..n]) && WellFormed(b[n..]);
    ScanMatchesGrammar(b, n);
  }

  /** `from_utf8` succeeds exactly on the UTF8-octets of RFC 3629 section 4. */
  lemma {:induction false} DecodeAcceptsWellFormed(b: seq<byte>, offset: nat)
    ensures DecodeFrom(b, offset).Ok? <==> WellFormed(b)
    decreases |b|
  {
    if b != [] {
      var sc := ScanChar(b);
      if sc.Char? {
        ScanMatchesGrammar(b, sc.len);
        DecodeAcceptsWellFormed(b[sc.len..], offset + sc.len);
        if WellFormed(b) { WellFormedHead(b); }
      } else if WellFormed(b) {
        WellFormedHead(b);
      }
    }
  }

  /** Every string's bytes are well-formed UTF-8. */
  lemma EncodeWellFormed(s: string)
    ensures WellFormed(Encode(s))
  {
    DecodeEncode(s, 0);
    DecodeAcceptsWellFormed(Encode(s), 0);
  }

  /** A UTF8-char followed by UTF8-octets is UTF8-octets. */
  lemma WellFormedPrepend(x: seq<byte>, n: nat)
    requires 1 <= n <= 4 && n <= |x| && IsUtf8Char(x[..n]) && WellFormed(x[n..])
    ensures WellFormed(x)
  {
  }

  // ---------------------------------------------------------------------------
  // What a `Utf8Error` means. The inductive lemmas follow the validator through
  // the whole input `b`: `DecodeFrom(b[i..], i)` is its state at index `i`.

  /** After a character the validator accepts at `i`, validation goes on from the end of that character. */
  lemma ErrorAfterChar(b: seq<byte>, i: nat)
    requires i < |b| && ScanChar(b[i..]).Char? && DecodeFrom(b[i..], i).Err?
    ensures i + ScanChar(b[i..]).len <= |b|
    ensures DecodeFrom(b[i + ScanChar(b[i..]).len..], i + ScanChar(b[i..]).len) == DecodeFrom(b[i..], i)
  {
    assert b[i..][ScanChar(b[i..]).len..] == b[i + ScanChar(b[i..]).len..];
  }

  /** When the validator rejects the sequence at `i`, the error is at `i`. */
  lemma ErrorAtStart(b: seq<byte>, i: nat)
    requires i < |b| && !ScanChar(b[i..]).Char?
    ensures DecodeFrom(b[i..], i) ==
      Err(Utf8Error(i, if ScanChar(b[i..]).Invalid? then Some(ScanChar(b[i..]).len) else None))
  {
  }

  /** Where validation from `i` stops: inside the input, with `Some(n)` covering 1 to 3 bytes and `None` at most 3 bytes before the end. */
  lemma {:induction false} ErrorBoundsAt(b: seq<byte>, i: nat)
    requires i <= |b| && DecodeFrom(b[i..], i).Err?
    ensures var e := DecodeFrom(b[i..], i).error;
      && i <= e.validUpTo < |b|
      && (e.errorLen.Some? ==> 1 <= e.errorLen.value <= 3 && e.validUpTo + e.errorLen.value <= |b|)
      && (e.errorLen.None? ==> |b| - e.validUpTo <= 3)
    decreases |b| - i
  {
    assert b[i..] != [];
    if ScanChar(b[i..]).Char? {
      ErrorAfterChar(b, i);
      ErrorBoundsAt(b, i + ScanChar(b[i..]).len);
    } else {
      ErrorAtStart(b, i);
    }
  }

  /** A well-formed stretch `b[i..j]` grows by one character at the front. */
  lemma PrefixAfterChar(b: seq<byte>, i: nat, j: nat)
    requires i < |b| && ScanChar(b[i..]).Char? && i + ScanChar(b[i..]).len <= j <= |b|
    requires WellFormed(b[i + ScanChar(b[i..]).len..j])
    ensures WellFormed(b[i..j])
  {
    var n := ScanChar(b[i..]).len;
    var x := b[i..j];
    assert x[..n] == b[i..][..n];
    assert x[n..] == b[i + n..j];
    ScanMatchesGrammar(b[i..], n);
    WellFormedPrepend(x, n);
  }

  /** Validation from `i` stops at `validUpTo` only after a well-formed stretch `b[i..validUpTo]`. */
  lemma {:induction false} ErrorPrefixAt(b: seq<byte>, i: nat)
    requires i <= |b| && DecodeFrom(b[i..], i).Err?
    ensures i <= DecodeFrom(b[i..], i).error.validUpTo <= |b|
    ensures WellFormed(b[i..DecodeFrom(b[i..], i).error.validUpTo])
    decreases |b| - i
  {
    ErrorBoundsAt(b, i);
    if ScanChar(b[i..]).Char? {
      ErrorAfterChar(b, i);
      ErrorPrefixAt(b, i + ScanChar(b[i..]).len);
      PrefixAfterChar(b, i, DecodeFrom(b[i..], i).error.validUpTo);
    } else {
      ErrorAtStart(b, i);
      assert b[i..i] == [];
    }
  }

  /** `errorLen == None` from `i`: validation stopped at `validUpTo` because the bytes ran out inside a sequence. */
  lemma {:induction false} ErrorIncompleteAt(b: seq<byte>, i: nat)
    requires i <= |b| && DecodeFrom(b[i..], i).Err? && DecodeFrom(b[i..], i).error.errorLen.None?
    ensures i <= DecodeFrom(b[i..], i).error.validUpTo < |b|
    ensures ScanChar(b[DecodeFrom(b[i..], i).error.validUpTo..]).Incomplete?
    decreases |b| - i
  {
    ErrorBoundsAt(b, i);
    if ScanChar(b[i..]).Char? {
      ErrorAfterChar(b, i);
      ErrorIncompleteAt(b, i + ScanChar(b[i..]).len);
    } else {
      ErrorAtStart(b, i);
    }
  }

  /** A well-formed stretch `b[i..k]` starts with the character the validator reads at `i`. */
  lemma WellFormedHeadAt(b: seq<byte>, i: nat, k: nat)
    requires i < k <= |b| && WellFormed(b[i..k])
    ensures ScanChar(b[i..]).Char? && i + ScanChar(b[i..]).len <= k
    ensures WellFormed(b[i + ScanChar(b[i..]).len..k])
  {
    var x := b[i..k];
    WellFormedHead(x);
    ScanPrefixAt(b, i, k);
    assert x[ScanChar(x).len..] == b[i + ScanChar(x).len..k];
  }

  lemma ScanPrefixAt(b: seq<byte>, i: nat, k: nat)
    requires i < k <= |b|
    ensures ScanChar(b[i..k]).Char? ==> ScanChar(b[i..]) == ScanChar(b[i..k])
  {
    assert b[i..][..k - i] == b[i..k];
    ScanPrefix(b[i..], k - i);
  }

  /** Validation from `i` stops at the end of the longest well-formed stretch from `i`. */
  lemma {:induction false} ErrorMaximalAt(b: seq<byte>, i: nat, k: nat)
    requires i < k <= |b| && DecodeFrom(b[i..], i).Err?
    requires DecodeFrom(b[i..], i).error.validUpTo < k
    ensures !WellFormed(b[i..k])
    decreases |b| - i
  {
    if WellFormed(b[i..k]) {
      WellFormedHeadAt(b, i, k);
      ErrorAfterChar(b, i);
      ErrorBoundsAt(b, i + ScanChar(b[i..]).len);
      ErrorMaximalAt(b, i + ScanChar(b[i..]).len, k);
    }
  }

  /**
   * What a `Utf8Error` reports: the input is well-formed up to `validUpTo`;
   * `Some(n)` names 1 to 3 bytes there, the stretch that `InvalidMaximalSubpart`
   * describes; `None` means the input ended at most 3 bytes after `validUpTo`.
   */
  lemma DecodeErrorPosition(b: seq<byte>)
    requires Decode(b).Err?
    ensures var e := Decode(b).error;
      && e.validUpTo < |b|
      && WellFormed(b[..e.validUpTo])
      && (e.errorLen.Some? ==> 1 <= e.errorLen.value <= 3 && e.validUpTo + e.errorLen.value <= |b|)
      && (e.errorLen.None? ==> |b| - e.validUpTo <= 3)
  {
    assert b[0..] == b;
    ErrorBoundsAt(b, 0);
    ErrorPrefixAt(b, 0);
    assert b[0..Decode(b).error.validUpTo] == b[..Decode(b).error.validUpTo];
  }

  /**
   * What `Invalid(n)` reports (Rust's `error_len`, the maximal subpart): the
   * `n` bytes begin some UTF8-char unless `n` is 1; a lead byte that begins none
   * is reported alone; and the byte after the `n` bytes cannot continue them.
   */
  lemma InvalidMaximalSubpart(b: seq<byte>)
    requires |b| > 0 && ScanChar(b).Invalid?
    ensures ScanChar(b).len == 1 || exists c :: IsUtf8Char(c) && b[..ScanChar(b).len] < c
    ensures Width(b[0]) == 0 ==> ScanChar(b).len == 1 && forall c :: IsUtf8Char(c) ==> !(b[..1] <= c)
    ensures ScanChar(b).len < |b| ==> forall c :: IsUtf8Char(c) ==> !(b[..ScanChar(b).len + 1] <= c)
  {
    var n := ScanChar(b).len;
    if n >= 2 {
      var c := b[..n] + seq(Width(b[0]) - n, _ => 0x80 as byte);
      assert b[..n] < c;
      assert IsUtf8Char(c);
    }
    if n < |b| {
      forall c | IsUtf8Char(c) ensures !(b[..n + 1] <= c) {
        if |c| > n {
          assert b[..n + 1] <= c <==> forall i :: 0 <= i <= n ==> c[i] == b[i];
        }
      }
    }
    if Width(b[0]) == 0 {
      forall c | IsUtf8Char(c) ensures !(b[..1] <= c) {
        assert b[..1] <= c <==> c[0] == b[0];
      }
    }
  }

  /** Input that ends in the middle of a sequence is a proper prefix of a UTF8-char. */
  lemma IncompleteExtends(b: seq<byte>)
    requires |b| > 0 && ScanChar(b).Incomplete?
    ensures exists c :: IsUtf8Char(c) && b < c
  {
    var lead := b[0];
    var c := if |b| == 1 then [lead, SecondLow(lead)] else b;
    c := c + seq(Width(lead) - |c|, _ => 0x80 as byte);
    assert b < c;
    assert IsUtf8Char(c);
  }

  /** `errorLen == None`: what follows `validUpTo` is the beginning of a well-formed character, cut short. */
  lemma DecodeErrorTruncated(b: seq<byte>)
    requires Decode(b).Err? && Decode(b).error.errorLen.None?
    ensures Decode(b).error.validUpTo < |b|
    ensures exists c :: IsUtf8Char(c) && b[Decode(b).error.validUpTo..] < c
  {
    assert b[0..] == b;
    ErrorIncompleteAt(b, 0);
    var t := b[Decode(b).error.validUpTo..];
    IncompleteExtends(t);
    var c :| IsUtf8Char(c) && t < c;
  }

  /** `validUpTo` is the largest such index: no longer prefix of the input is well-formed. */
  lemma DecodeErrorMaximal(b: seq<byte>, k: nat)
    requires Decode(b).Err? && Decode(b).error.validUpTo < k <= |b|
    ensures !WellFormed(b[..k])
  {
    assert b[0..] == b;
    ErrorBoundsAt(b, 0);
    ErrorMaximalAt(b, 0, k);
    assert b[0..k] == b[..k];
  }
}
