/**
  What LZ4_decompress_generic computes, one function per label of the C function.
  The state is the input position and the history: external dictionary, prefix and
  output so far, concatenated. Positions of the output buffer are positions in the history.
*/
module BlockDecoderSpec {
  import opened Bytes
  import opened BlockFormat

  /** `Decoded` holds the whole history with the output at its end, `Malformed` the input
      position that the negative result encodes. `Unspecified` is partial decoding of a
      match of offset 0 at the end of the output, which leaves old buffer bytes there. */
  datatype Outcome = Decoded(history: bytes) | Malformed(pos: nat) | Unspecified

  /** `limit` is the end of the output buffer, `ext` the size of the part of the history
      that lies in the external dictionary. */
  datatype Config = Config(limit: nat, ext: nat, partial: bool)

  const SHORT_INPUT := 16   // 14 literals and an offset
  const SHORT_OUTPUT := 32  // 14 literals and a match of 18
  const SAFEGUARD := 12     // MATCH_SAFEGUARD_DISTANCE
  const WINDOW := 65536

  // ----- Variable-length fields -----

  datatype Field = Length(value: nat, next: nat) | Overrun(at: nat)

  function ReadMore(src: bytes, ip: nat, ilimit: int, acc: nat): (f: Field)
    requires ip < |src| && ilimit < |src|
    ensures f.Length? ==> ip < f.next && f.next <= ilimit && acc <= f.value
    ensures f.Overrun? ==> ip < f.at
    decreases |src| - ip
  {
    var s := src[ip];
    if ip + 1 > ilimit then Overrun(ip + 1)
    else if s == 255 then ReadMore(src, ip + 1, ilimit, acc + 255)
    else Length(acc + s, ip + 1)
  }

  /** read_variable_length */
  function ReadLength(src: bytes, ip: nat, ilimit: int, initialCheck: bool): (f: Field)
    requires ip <= |src| && ilimit < |src|
    requires initialCheck || ip < |src|
    ensures f.Length? ==> ip < f.next && f.next <= ilimit
  {
    if initialCheck && ip >= ilimit then Overrun(ip) else ReadMore(src, ip, ilimit, 0)
  }

  // ----- The labels -----

  ghost predicate InRange(c: Config, h: bytes) {
    c.ext <= |h| <= c.limit
  }

  /** The first stage of the shortcut. */
  predicate Shortcut(src: bytes, c: Config, ip: nat, n: nat)
    requires ip < |src|
  {
    src[ip] / 16 != RUN_MASK && ip + 1 + SHORT_INPUT < |src| && n + SHORT_OUTPUT <= c.limit
  }

  /** The second stage: a short match, no overlap within 8 bytes, not from the external dictionary. */
  predicate ShortMatch(token: byte, offset: nat, inPrefix: int) {
    token % 16 != RUN_MASK && 8 <= offset <= inPrefix
  }

  /** Start of a sequence. */
  function Start(src: bytes, c: Config, ip: nat, h: bytes): Outcome
    requires ip < |src| && InRange(c, h)
    decreases |src| - ip, 0
  {
    var token := src[ip];
    var ll := token / 16;
    if Shortcut(src, c, ip, |h|) then
      var h1 := h + src[ip + 1..ip + 1 + ll];
      var offset := ReadLE16(src, ip + 1 + ll);
      var ip1 := ip + 1 + ll + 2;
      if ShortMatch(token, offset, |h1| - c.ext) then
        Start(src, c, ip1, CopyMatch(h1, offset, token % 16 + MINMATCH))
      else
        MatchLength(src, c, token, ip1, offset, h1)
    else if ll == RUN_MASK then
      match ReadLength(src, ip + 1, |src| - RUN_MASK, true)
      case Overrun(at) => Malformed(at)
      case Length(addl, next) => Literals(src, c, token, next, RUN_MASK + addl, h)
    else
      Literals(src, c, token, ip + 1, ll, h)
  }

  /** safe_literal_copy */
  function Literals(src: bytes, c: Config, token: byte, ip: nat, ll: nat, h: bytes): Outcome
    requires ip <= |src| && InRange(c, h)
    decreases |src| - ip, 3
  {
    if |h| + ll > c.limit - MFLIMIT || ip + ll > |src| - (2 + 1 + LASTLITERALS) then
      if c.partial then
        var l1 := if ip + ll > |src| then |src| - ip else ll;
        var l2 := if |h| + l1 > c.limit then c.limit - |h| else l1;
        var h1 := h + src[ip..ip + l2];
        if |h1| == c.limit || ip + l2 >= |src| - 2 then Decoded(h1)
        else MatchLength(src, c, token, ip + l2 + 2, ReadLE16(src, ip + l2), h1)
      else if ip + ll != |src| || |h| + ll > c.limit then Malformed(ip)
      else Decoded(h + src[ip..])
    else
      MatchLength(src, c, token, ip + ll + 2, ReadLE16(src, ip + ll), h + src[ip..ip + ll])
  }

  /** _copy_match */
  function MatchLength(src: bytes, c: Config, token: byte, ip: nat, offset: nat, h: bytes): Outcome
    requires ip < |src| && InRange(c, h)
    requires offset < WINDOW
    decreases |src| - ip, 2
  {
    if token % 16 == RUN_MASK then
      match ReadLength(src, ip, |src| - LASTLITERALS + 1, false)
      case Overrun(at) => Malformed(at)
      case Length(addl, next) => MatchCopy(src, c, next, offset, RUN_MASK + addl + MINMATCH, h)
    else
      MatchCopy(src, c, ip, offset, token % 16 + MINMATCH, h)
  }

  /** safe_match_copy */
  function MatchCopy(src: bytes, c: Config, ip: nat, offset: nat, ml: nat, h: bytes): Outcome
    requires ip < |src| && InRange(c, h)
    decreases |src| - ip, 1
  {
    if offset > |h| then
      Malformed(ip)
    else if offset > |h| - c.ext then
      if |h| + ml > c.limit - LASTLITERALS then
        if c.partial then Start(src, c, ip, CopyMatch(h, offset, Min(ml, c.limit - |h|)))
        else Malformed(ip)
      else
        Start(src, c, ip, CopyMatch(h, offset, ml))
    else if c.partial && |h| + ml > c.limit - SAFEGUARD then
      var n := Min(ml, c.limit - |h|);
      if offset == 0 then Unspecified
      else
        var h1 := CopyMatch(h, offset, n);
        if |h1| == c.limit then Decoded(h1) else Start(src, c, ip, h1)
    else if |h| + ml > c.limit - LASTLITERALS then
      Malformed(ip)
    else
      Start(src, c, ip, CopyMatch(h, offset, ml))
  }

  /** The whole call: `hist` is everything a match may refer to, its first `ext` bytes in the
      external dictionary; `cap` is the size of the output buffer. */
  function Decompress(src: bytes, hist: bytes, ext: nat, cap: nat, partial: bool): Outcome
    requires ext <= |hist|
  {
    if cap == 0 then
      if partial then Decoded(hist)
      else if |src| == 1 && src[0] == 0 then Decoded(hist) else Malformed(0)
    else if |src| == 0 then
      Malformed(0)
    else
      Start(src, Config(|hist| + cap, ext, partial), 0, hist)
  }

  /** The number the C function returns. */
  function ReturnValue(o: Outcome, hist: bytes): int
    requires !o.Unspecified?
  {
    match o
    case Decoded(h) => |h| - |hist|
    case Malformed(pos) => -(pos as int) - 1
  }
}
