/** The payload codec: compress, Base64-encode with the standard alphabet
    and '=' padding (RFC 4648, section 4), and cut the text into lines of
    80 characters after a leading newline (`Packer.encode`); and the inverse
    the runtime applies (`File.Prepare`). */
module Codec {
  import opened Common

  // ---------------------------------------------------------------------
  // Base64, standard alphabet, with padding (RFC 4648, section 4)
  // ---------------------------------------------------------------------

  /** The character for a 6-bit value: A-Z, a-z, 0-9, '+', '/'. */
  function Digit(i: int): (c: char)
    requires 0 <= i < 64
  {
    if i < 26 then ('A' as int + i) as char
    else if i < 52 then ('a' as int + (i - 26)) as char
    else if i < 62 then ('0' as int + (i - 52)) as char
    else if i == 62 then '+'
    else '/'
  }

  /** The 6-bit value of an alphabet character, -1 for any other character. */
  function Sextet(c: char): (v: int)
    ensures -1 <= v < 64
    ensures v >= 0 ==> Digit(v) == c
  {
    if 'A' <= c <= 'Z' then c as int - 'A' as int
    else if 'a' <= c <= 'z' then c as int - 'a' as int + 26
    else if '0' <= c <= '9' then c as int - '0' as int + 52
    else if c == '+' then 62
    else if c == '/' then 63
    else -1
  }

  lemma SextetOfDigit(i: int)
    requires 0 <= i < 64
    ensures Sextet(Digit(i)) == i
  {
  }

  /** Every character is from the alphabet or is the pad '='. */
  ghost predicate Base64Text(s: string) {
    forall k :: 0 <= k < |s| ==> Sextet(s[k]) >= 0 || s[k] == '='
  }

  /** Three bytes as four characters: each character carries 6 of the 24 bits. */
  function EncodeGroup(b0: Byte, b1: Byte, b2: Byte): string {
    [Digit(b0 / 4), Digit((b0 % 4) * 16 + b1 / 16), Digit((b1 % 16) * 4 + b2 / 64), Digit(b2 % 64)]
  }

  /** The last group of an input whose length is 1 more than a multiple of 3. */
  function EncodeTail1(b0: Byte): string {
    [Digit(b0 / 4), Digit((b0 % 4) * 16), '=', '=']
  }

  /** The last group of an input whose length is 2 more than a multiple of 3. */
  function EncodeTail2(b0: Byte, b1: Byte): string {
    [Digit(b0 / 4), Digit((b0 % 4) * 16 + b1 / 16), Digit((b1 % 16) * 4), '=']
  }

  /** `base64.StdEncoding.EncodeToString`: each 3 bytes become 4
      characters; a final 1 or 2 bytes become 2 or 3 characters and '='
      fill the group to 4. */
  function Base64Encode(b: seq<Byte>): (s: string)
    ensures |s| == 4 * ((|b| + 2) / 3)
    ensures Base64Text(s)
    decreases |b|
  {
    if |b| == 0 then ""
    else if |b| == 1 then EncodeTail1(b[0])
    else if |b| == 2 then EncodeTail2(b[0], b[1])
    else
      var g := EncodeGroup(b[0], b[1], b[2]);
      var rest := Base64Encode(b[3..]);
      assert (|b| + 2) / 3 == (|b| - 3 + 2) / 3 + 1;
      assert forall k :: 0 <= k < |rest| ==> (g + rest)[4 + k] == rest[k];
      g + rest
  }

  /** A 4-character group is well formed: two alphabet characters, then
      either "==", an alphabet character and "=", or two alphabet characters.
      Padding is accepted only in the final group. */
  predicate ValidGroup(g: string, last: bool)
    requires |g| == 4
  {
    && Sextet(g[0]) >= 0 && Sextet(g[1]) >= 0
    && (if g[2] == '=' then last && g[3] == '='
        else Sextet(g[2]) >= 0 && (if g[3] == '=' then last else Sextet(g[3]) >= 0))
  }

  /** The 1, 2 or 3 bytes a well-formed group stands for. */
  function DecodeGroup(g: string): (r: seq<Byte>)
    requires |g| == 4 && ValidGroup(g, true)
  {
    var a, b := Sextet(g[0]), Sextet(g[1]);
    if g[2] == '=' then [a * 4 + b / 16]
    else
      var c := Sextet(g[2]);
      if g[3] == '=' then [a * 4 + b / 16, (b % 16) * 16 + c / 4]
      else [a * 4 + b / 16, (b % 16) * 16 + c / 4, (c % 4) * 64 + Sextet(g[3])]
  }

  /** Standard Base64 decoding of unwrapped text; `None` for a length that
      is not a multiple of 4, a character outside the alphabet, or padding
      anywhere but at the end. Like Go's non-strict decoder it ignores the
      unused low bits of a final partial group. */
  function Base64Decode(s: string): (r: Option<seq<Byte>>)
    decreases |s|
  {
    if s == [] then Some([])
    else if |s| < 4 || !ValidGroup(s[..4], |s| == 4) then None
    else if |s| == 4 then Some(DecodeGroup(s))
    else
      match Base64Decode(s[4..])
      case None => None
      case Some(rest) => Some(DecodeGroup(s[..4]) + rest)
  }

  lemma GroupRoundTrip(b0: Byte, b1: Byte, b2: Byte)
    ensures ValidGroup(EncodeGroup(b0, b1, b2), false)
    ensures DecodeGroup(EncodeGroup(b0, b1, b2)) == [b0, b1, b2]
  {
    var x0, x1 := b0 / 4, (b0 % 4) * 16 + b1 / 16;
    var x2, x3 := (b1 % 16) * 4 + b2 / 64, b2 % 64;
    SextetOfDigit(x0);
    SextetOfDigit(x1);
    SextetOfDigit(x2);
    SextetOfDigit(x3);
    assert x1 / 16 == b0 % 4 && x1 % 16 == b1 / 16;
    assert x2 / 4 == b1 % 16 && x2 % 4 == b2 / 64;
  }

  lemma Tail1RoundTrip(b0: Byte)
    ensures ValidGroup(EncodeTail1(b0), true)
    ensures DecodeGroup(EncodeTail1(b0)) == [b0]
  {
    SextetOfDigit(b0 / 4);
    SextetOfDigit((b0 % 4) * 16);
  }

  lemma Tail2RoundTrip(b0: Byte, b1: Byte)
    ensures ValidGroup(EncodeTail2(b0, b1), true)
    ensures DecodeGroup(EncodeTail2(b0, b1)) == [b0, b1]
  {
    var x1, x2 := (b0 % 4) * 16 + b1 / 16, (b1 % 16) * 4;
    SextetOfDigit(b0 / 4);
    SextetOfDigit(x1);
    SextetOfDigit(x2);
    assert x1 / 16 == b0 % 4 && x1 % 16 == b1 / 16;
    assert x2 / 4 == b1 % 16;
  }

  lemma DecodeCons(g: string, t: string)
    requires |g| == 4 && ValidGroup(g, false)
    requires Base64Decode(t).Some?
    ensures Base64Decode(g + t) == Some(DecodeGroup(g) + Base64Decode(t).value)
  {
    if t == [] {
      assert g + t == g && g[..4] == g;
      assert ValidGroup(g, true);
      assert DecodeGroup(g) + [] == DecodeGroup(g);
    } else {
      assert (g + t)[..4] == g && (g + t)[4..] == t;
    }
  }

  /** Decoding undoes encoding, for every byte sequence. */
  lemma {:induction false} Base64RoundTrip(b: seq<Byte>)
    ensures Base64Decode(Base64Encode(b)) == Some(b)
    decreases |b|
  {
    if 1 <= |b| <= 2 {
      ShortRoundTrip(b);
    } else if |b| >= 3 {
      Base64RoundTrip(b[3..]);
      RoundTripStep(b);
    }
  }

  lemma ShortRoundTrip(b: seq<Byte>)
    requires 1 <= |b| <= 2
    ensures Base64Decode(Base64Encode(b)) == Some(b)
  {
    if |b| == 1 {
      OneRoundTrip(b);
    } else {
      TwoRoundTrip(b);
    }
  }

  lemma OneRoundTrip(b: seq<Byte>)
    requires |b| == 1
    ensures Base64Decode(Base64Encode(b)) == Some(b)
  {
    Tail1RoundTrip(b[0]);
    assert b == [b[0]];
  }

  lemma TwoRoundTrip(b: seq<Byte>)
    requires |b| == 2
    ensures Base64Decode(Base64Encode(b)) == Some(b)
  {
    Tail2RoundTrip(b[0], b[1]);
    assert b == [b[0], b[1]];
  }

  lemma RoundTripStep(b: seq<Byte>)
    requires |b| >= 3
    requires Base64Decode(Base64Encode(b[3..])) == Some(b[3..])
    ensures Base64Decode(Base64Encode(b)) == Some(b)
  {
    var x, y := b[..3], b[3..];
    SplitThree(b);
    EncodeCons(b);
    GroupRoundTrip(b[0], b[1], b[2]);
    ConsRoundTrip(EncodeGroup(b[0], b[1], b[2]), Base64Encode(y), x, y);
  }

  lemma ConsRoundTrip(g: string, t: string, x: seq<Byte>, y: seq<Byte>)
    requires |g| == 4 && ValidGroup(g, false) && DecodeGroup(g) == x
    requires Base64Decode(t) == Some(y)
    ensures Base64Decode(g + t) == Some(x + y)
  {
    DecodeCons(g, t);
  }

  lemma SplitThree(b: seq<Byte>)
    requires |b| >= 3
    ensures b[..3] == [b[0], b[1], b[2]] && b == b[..3] + b[3..]
  {
  }

  lemma EncodeCons(b: seq<Byte>)
    requires |b| >= 3
    ensures Base64Encode(b) == EncodeGroup(b[0], b[1], b[2]) + Base64Encode(b[3..])
  {
  }

  // ---------------------------------------------------------------------
  // Compression (gzip, RFC 1952), as an invertible stand-in
  // ---------------------------------------------------------------------

  /** The 10-byte member header Go's gzip writer produces at
      `gzip.BestCompression`: magic 1f 8b, method 8 (deflate), no flags, zero
      time, extra flags 2 (slowest), OS 255 (unknown). */
  const GzipHeader: seq<Byte> := [0x1f, 0x8b, 8, 0, 0, 0, 0, 0, 2, 255]

  datatype GzipError = HeaderTruncated | HeaderInvalid

  /** Stand-in for `gzip.NewWriterLevel(…, gzip.BestCompression)`: the real
      header followed by the data itself; the model needs only that it is
      invertible and never fails. */
  function Compress(data: seq<Byte>): (c: seq<Byte>)
    ensures |c| == |GzipHeader| + |data|
  {
    GzipHeader + data
  }

  /** Stand-in for `gzip.NewReader` + read-all: fails, as `gzip.NewReader`
      does, when fewer than 10 header bytes are present or the magic or the
      method byte is wrong. */
  function Decompress(c: seq<Byte>): (r: Result<seq<Byte>, GzipError>)
    ensures r.Failure? <==> |c| < 10 || c[0] != 0x1f || c[1] != 0x8b || c[2] != 8
  {
    if |c| < 10 then Failure(HeaderTruncated)
    else if c[0] != 0x1f || c[1] != 0x8b || c[2] != 8 then Failure(HeaderInvalid)
    else Success(c[10..])
  }

  lemma CompressRoundTrip(data: seq<Byte>)
    ensures Decompress(Compress(data)) == Success(data)
  {
  }

  // ---------------------------------------------------------------------
  // Line framing
  // ---------------------------------------------------------------------

  const LineWidth: nat := 80

  function Flatten(ls: seq<string>): string {
    if ls == [] then "" else ls[0] + Flatten(ls[1..])
  }

  /** Each line followed by '\n'. */
  function Terminated(ls: seq<string>): string {
    if ls == [] then "" else ls[0] + "\n" + Terminated(ls[1..])
  }

  ghost predicate NoNewlines(s: string) {
    forall k :: 0 <= k < |s| ==> s[k] != '\n' && s[k] != '\r'
  }

  /** The text cut into consecutive lines of 80 characters; only the last
      one may be shorter, and none is empty. */
  function Lines(s: string): (ls: seq<string>)
    ensures Flatten(ls) == s
    ensures forall i :: 0 <= i < |ls| ==> 1 <= |ls[i]| <= LineWidth
    ensures forall i :: 0 <= i < |ls| - 1 ==> |ls[i]| == LineWidth
    ensures Base64Text(s) ==> forall i :: 0 <= i < |ls| ==> Base64Text(ls[i])
    decreases |s|
  {
    if s == [] then []
    else if |s| <= LineWidth then [s]
    else
      var ls := [s[..LineWidth]] + Lines(s[LineWidth..]);
      assert ls[1..] == Lines(s[LineWidth..]);
      assert s == s[..LineWidth] + s[LineWidth..];
      ls
  }

  /** What Go's base64 decoder skips: '\n' and '\r'. */
  function StripNewlines(s: string): (r: string)
    ensures |r| <= |s|
  {
    if s == [] then ""
    else if s[0] == '\n' || s[0] == '\r' then StripNewlines(s[1..])
    else [s[0]] + StripNewlines(s[1..])
  }

  /** Skipping newlines keeps every other character of `s`, as often as it
      occurs there, and nothing else. */
  lemma {:induction false} StripNewlinesKeeps(s: string)
    ensures forall c :: multiset(StripNewlines(s))[c] == if c == '\n' || c == '\r' then 0 else multiset(s)[c]
    decreases |s|
  {
    if s != [] {
      StripNewlinesKeeps(s[1..]);
      var t := StripNewlines(s[1..]);
      assert s == [s[0]] + s[1..];
      if s[0] == '\n' || s[0] == '\r' {
        assert StripNewlines(s) == t;
      } else {
        assert StripNewlines(s) == [s[0]] + t;
      }
    }
  }

  lemma {:induction false} StripConcat(a: string, b: string)
    ensures StripNewlines(a + b) == StripNewlines(a) + StripNewlines(b)
    decreases |a|
  {
    if a != [] {
      assert (a + b)[1..] == a[1..] + b;
      StripConcat(a[1..], b);
    } else {
      assert a + b == b;
    }
  }

  lemma {:induction false} StripNoNewlines(s: string)
    requires NoNewlines(s)
    ensures StripNewlines(s) == s
    decreases |s|
  {
    if s != [] {
      StripNoNewlines(s[1..]);
      assert s == [s[0]] + s[1..];
    }
  }

  lemma {:induction false} StripTerminated(ls: seq<string>)
    requires forall i :: 0 <= i < |ls| ==> NoNewlines(ls[i])
    ensures StripNewlines(Terminated(ls)) == Flatten(ls)
    decreases |ls|
  {
    if ls != [] {
      var rest := Terminated(ls[1..]);
      StripTerminated(ls[1..]);
      assert Terminated(ls) == (ls[0] + "\n") + rest;
      StripConcat(ls[0] + "\n", rest);
      StripConcat(ls[0], "\n");
      StripNoNewlines(ls[0]);
      assert StripNewlines("\n") == "";
      assert Flatten(ls) == ls[0] + Flatten(ls[1..]);
    }
  }

  // ---------------------------------------------------------------------
  // The packer's encode and the runtime's decode
  // ---------------------------------------------------------------------

  /** The result of `Packer.encode(data)`. */
  function Encoded(data: seq<Byte>): string {
    "\n" + Terminated(Lines(Base64Encode(Compress(data))))
  }

  /** `Packer.encode`: compress, Base64-encode, then copy the text out 80
      characters at a time, a newline before the first line and after each. */
  method Encode(data: seq<Byte>) returns (text: string)
    ensures text == Encoded(data)
  {
    var b64 := Base64Encode(Compress(data));
    text := Wrap(b64);
  }

  /** The copying loop of `Packer.encode`. */
  method Wrap(b64: string) returns (text: string)
    ensures text == "\n" + Terminated(Lines(b64))
  {
    text := "\n";
    var i := 0;
    while i < |b64|
      invariant 0 <= i <= |b64|
      invariant text + Terminated(Lines(b64[i..])) == "\n" + Terminated(Lines(b64))
    {
      var n := Min(LineWidth, |b64| - i);
      AppendLine(text, b64, i);
      text := text + b64[i..i + n] + "\n";
      i := i + n;
    }
    assert b64[i..] == [];
  }

  /** One line of `encode`'s loop: the next (at most) 80 characters and a
      newline. */
  lemma LinesStep(s: string, i: nat)
    requires i < |s|
    ensures var n := Min(LineWidth, |s| - i);
            Terminated(Lines(s[i..])) == s[i..i + n] + "\n" + Terminated(Lines(s[i + n..]))
  {
    var n := Min(LineWidth, |s| - i);
    var rest := s[i..];
    if |rest| > LineWidth {
      assert rest[..LineWidth] == s[i..i + n];
      assert rest[LineWidth..] == s[i + n..];
      assert Lines(rest)[1..] == Lines(s[i + n..]);
    } else {
      assert rest == s[i..i + n];
      assert s[i + n..] == [];
    }
  }

  lemma AppendLine(text: string, s: string, i: nat)
    requires i < |s|
    ensures var n := Min(LineWidth, |s| - i);
            (text + s[i..i + n] + "\n") + Terminated(Lines(s[i + n..])) == text + Terminated(Lines(s[i..]))
  {
    LinesStep(s, i);
  }

  ghost predicate PayloadChar(c: char) {
    Sextet(c) >= 0 || c == '=' || c == '\n'
  }

  lemma {:induction false} TerminatedChars(ls: seq<string>)
    requires forall i :: 0 <= i < |ls| ==> Base64Text(ls[i])
    ensures forall k :: 0 <= k < |Terminated(ls)| ==> PayloadChar(Terminated(ls)[k])
    decreases |ls|
  {
    if ls != [] {
      TerminatedChars(ls[1..]);
      var t := Terminated(ls);
      assert t == ls[0] + ("\n" + Terminated(ls[1..]));
      forall k | 0 <= k < |t| ensures PayloadChar(t[k]) {
        if k < |ls[0]| {
          assert t[k] == ls[0][k];
        } else if k > |ls[0]| {
          assert t[k] == Terminated(ls[1..])[k - |ls[0]| - 1];
        }
      }
    }
  }

  /** The shape of `encode`'s output: a leading '\n', then lines each ended
      by '\n', each 80 characters long but the last, which has 1 to 80; with
      the newlines taken out it is exactly the Base64 text of the
      compressed bytes. */
  lemma EncodedShape(data: seq<Byte>)
    ensures var b64 := Base64Encode(Compress(data));
            var ls := Lines(b64);
            && Encoded(data) == "\n" + Terminated(ls)
            && Flatten(ls) == b64
            && |ls| >= 1
            && (forall i :: 0 <= i < |ls| - 1 ==> |ls[i]| == LineWidth)
            && 1 <= |ls[|ls| - 1]| <= LineWidth
            && (forall i :: 0 <= i < |ls| ==> NoNewlines(ls[i]))
            && StripNewlines(Encoded(data)) == b64
  {
    var b64 := Base64Encode(Compress(data));
    var ls := Lines(b64);
    forall i | 0 <= i < |ls| ensures NoNewlines(ls[i]) {
      assert Base64Text(ls[i]);
    }
    StripTerminated(ls);
    StripConcat("\n", Terminated(ls));
  }

  /** The payload never holds a character that would end or break the raw
      (back-quoted) string literal it is written into. */
  lemma EncodedIsRawLiteralSafe(data: seq<Byte>)
    ensures forall k :: 0 <= k < |Encoded(data)| ==> PayloadChar(Encoded(data)[k])
    ensures '`' !in Encoded(data)
  {
    var t := Encoded(data);
    TerminatedChars(Lines(Base64Encode(Compress(data))));
    forall k | 0 <= k < |t| ensures PayloadChar(t[k]) {
      if k > 0 { assert t[k] == Terminated(Lines(Base64Encode(Compress(data))))[k - 1]; }
    }
  }

  datatype DecodeError = BadText | BadStream(gzip: GzipError)

  /** The runtime's decode of a payload: drop line breaks, Base64-decode,
      decompress. */
  function Unpack(text: string): (r: Result<seq<Byte>, DecodeError>)
  {
    match Base64Decode(StripNewlines(text))
    case None => Failure(BadText)
    case Some(c) =>
      match Decompress(c)
      case Failure(e) => Failure(BadStream(e))
      case Success(b) => Success(b)
  }

  /** Round trip: the runtime decodes every payload the packer writes back
      to the original bytes, including the empty sequence. */
  lemma UnpackEncoded(data: seq<Byte>)
    ensures Unpack(Encoded(data)) == Success(data)
  {
    EncodedShape(data);
    Base64RoundTrip(Compress(data));
    CompressRoundTrip(data);
  }

  /** The empty payload (what an entry without `Data` holds) has no gzip
      header. */
  lemma UnpackEmpty()
    ensures Unpack("") == Failure(BadStream(HeaderTruncated))
  {
  }

  /** What `File.Prepare` leaves in the cache once decode errors are
      discarded: the decoded bytes, or nothing. */
  function Inflate(text: string): seq<Byte> {
    match Unpack(text)
    case Success(b) => b
    case Failure(_) => []
  }

  /** The outcome of `File.Prepare` as the source is written. */
  datatype Prepared = Decoded(bytes: seq<Byte>) | Panic

  /** `File.Prepare` as written: when `gzip.NewReader` cannot read a header it
      returns a nil reader, and `ioutil.ReadAll` on that nil `*gzip.Reader`
      dereferences it. Text that does not decode is counted here as a header
      that cannot be read. */
  function InflateAsWritten(text: string): Prepared {
    match Unpack(text)
    case Success(b) => Decoded(b)
    case Failure(_) => Panic
  }
}
