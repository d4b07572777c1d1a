/** Preflight of Base64 media: the decoded size from the text's length, and the duration of a WAV file. */
module MediaPolicy {
  import opened Prelude

  type byte = n: int | 0 <= n < 256

  // ---------------------------------------------------------------------
  // Base64
  // ---------------------------------------------------------------------

  type sextet = n: int | 0 <= n < 64

  /** The alphabet: A-Z, a-z, 0-9, plus and slash. */
  function Letter(n: sextet): char {
    if n < 26 then 'A' + n as char
    else if n < 52 then 'a' + (n - 26) as char
    else if n < 62 then '0' + (n - 52) as char
    else if n == 62 then '+' else '/'
  }

  /** The sextet of a letter of the alphabet. */
  function Sextet(c: char): Option<sextet> {
    if 'A' <= c <= 'Z' then Some((c - 'A') as int)
    else if 'a' <= c <= 'z' then Some((c - 'a') as int + 26)
    else if '0' <= c <= '9' then Some((c - '0') as int + 52)
    else if c == '+' then Some(62)
    else if c == '/' then Some(63)
    else None
  }

  lemma LettersReadBack(n: sextet)
    ensures Sextet(Letter(n)) == Some(n) && Letter(n) != '='
  {
  }

  /** The alphabet of section 4 of RFC 4648, by its five runs. */
  lemma AlphabetIsStandard(n: sextet)
    ensures Letter(0) == 'A' && Letter(25) == 'Z' && Letter(26) == 'a' && Letter(51) == 'z'
    ensures Letter(52) == '0' && Letter(61) == '9' && Letter(62) == '+' && Letter(63) == '/'
    ensures n < 61 && n != 25 && n != 51 ==> Letter(n + 1) as int == Letter(n) as int + 1
  {
  }

  /** The standard padded encoding. */
  function Encode(b: seq<byte>): string {
    if |b| == 0 then ""
    else if |b| == 1 then [Letter(b[0] / 4), Letter(b[0] % 4 * 16), '=', '=']
    else if |b| == 2 then [Letter(b[0] / 4), Letter(b[0] % 4 * 16 + b[1] / 16), Letter(b[1] % 16 * 4), '=']
    else [Letter(b[0] / 4), Letter(b[0] % 4 * 16 + b[1] / 16), Letter(b[1] % 16 * 4 + b[2] / 64), Letter(b[2] % 64)]
         + Encode(b[3..])
  }

  /** One group of four letters, some of them padding; `None` if it is malformed. */
  function DecodeGroup(g: string, last: bool): Option<seq<byte>>
    requires |g| == 4
  {
    var v, w := Sextet(g[0]), Sextet(g[1]);
    if v.None? || w.None? then None
    else
      var first: byte := v.value * 4 + w.value / 16;
      if last && g[2] == '=' && g[3] == '=' then Some([first])
      else
        var x := Sextet(g[2]);
        if x.None? then None
        else
          var second: byte := w.value % 16 * 16 + x.value / 4;
          if last && g[3] == '=' then Some([first, second])
          else
            var y := Sextet(g[3]);
            if y.None? then None else Some([first, second, x.value % 4 * 64 + y.value])
  }

  /** Strict decoding: whole groups, letters of the alphabet only, padding only at the very end. */
  function Decode(s: string): Option<seq<byte>> {
    if s == "" then Some([])
    else if |s| < 4 then None
    else
      var group, rest := DecodeGroup(s[..4], |s| == 4), Decode(s[4..]);
      if group.None? || rest.None? then None else Some(group.value + rest.value)
  }

  /** The text without its trailing padding. */
  function Stripped(s: string): (t: string)
    ensures t <= s
  {
    if s != "" && s[|s| - 1] == '=' then Stripped(s[..|s| - 1]) else s
  }

  function Estimate(s: string): nat {
    |Stripped(s)| * 3 / 4
  }

  /** Exactly the padding goes. */
  lemma {:induction false} OnlyPaddingGoes(s: string)
    ensures forall i | |Stripped(s)| <= i < |s| :: s[i] == '='
    ensures Stripped(s) <= s && (Stripped(s) != "" ==> Stripped(s)[|Stripped(s)| - 1] != '=')
  {
    if s == "" || s[|s| - 1] != '=' {
    } else {
      OnlyPaddingGoes(s[..|s| - 1]);
    }
  }

  datatype MediaError = TooLarge(estimated: nat) | InvalidBase64

  method CheckBase64Size(data: string, maxBytes: nat) returns (result: Result<nat, MediaError>)
    ensures result == if Estimate(data) > maxBytes then Err(TooLarge(Estimate(data))) else Ok(Estimate(data))
  {
    var stripped := Stripped(data);
    var estimated := |stripped| * 3 / 4;
    if estimated > maxBytes {
      return Err(TooLarge(estimated));
    }
    result := Ok(estimated);
  }

  lemma {:induction false} StrippedTail(head: string, tail: string)
    requires Stripped(tail) != ""
    ensures Stripped(head + tail) == head + Stripped(tail)
    decreases |tail|
  {
    var s := head + tail;
    assert s[|s| - 1] == tail[|tail| - 1];
    if tail[|tail| - 1] != '=' {
    } else {
      StrippedTail(head, tail[..|tail| - 1]);
      assert s[..|s| - 1] == head + tail[..|tail| - 1];
    }
  }

  /** A last group keeps one letter more than it holds bytes. */
  lemma LastGroup(g: string)
    requires |g| == 4 && DecodeGroup(g, true).Some?
    ensures |Stripped(g)| == |DecodeGroup(g, true).value| + 1
  {
    assert g[1] != '=';
    if g[3] == '=' {
      assert g[..3][..2] == g[..2];
      if g[2] == '=' {
        assert Stripped(g[..2]) == g[..2];
      }
    }
  }

  /** Decodable text is whole groups and a last group of `m` bytes. */
  lemma {:induction false} StrippedLength(s: string) returns (groups: nat, m: nat)
    requires Decode(s).Some?
    ensures s == "" ==> Stripped(s) == ""
    ensures s != "" ==> 1 <= m <= 3 && |Stripped(s)| == 4 * groups + m + 1 && |Decode(s).value| == 3 * groups + m
    decreases |s|
  {
    groups, m := 0, 0;
    if s == "" {
    } else {
      var g, rest := s[..4], s[4..];
      assert s == g + rest;
      if rest == "" {
        assert s == g;
        LastGroup(g);
        m := |DecodeGroup(g, true).value|;
      } else {
        groups, m := StrippedLength(rest);
        StrippedTail(g, rest);
        groups := groups + 1;
      }
    }
  }

  /** On every text that decodes, the estimate is the decoded size. */
  lemma EstimateIsExact(s: string)
    ensures Decode(s).Some? ==> Estimate(s) == |Decode(s).value|
  {
    if Decode(s).Some? {
      var _, _ := StrippedLength(s);
    }
  }

  /** Succeeds exactly on texts that decode to at most `maxBytes` bytes, with those bytes. */
  method DecodeBase64Safely(data: string, maxBytes: nat) returns (result: Result<seq<byte>, MediaError>)
    ensures result.Ok? <==> Decode(data).Some? && |Decode(data).value| <= maxBytes
    ensures result.Ok? ==> Some(result.value) == Decode(data)
    ensures Decode(data).Some? && |Decode(data).value| > maxBytes ==> result == Err(TooLarge(|Decode(data).value|))
  {
    EstimateIsExact(data);
    var checked := CheckBase64Size(data, maxBytes);
    if checked.Err? {
      return Err(checked.error);
    }
    var decoded := Decode(data);
    result := if decoded.Some? then Ok(decoded.value) else Err(InvalidBase64);
  }

  lemma ThreeBytes(a: byte, b: byte, c: byte)
    ensures DecodeGroup([Letter(a / 4), Letter(a % 4 * 16 + b / 16), Letter(b % 16 * 4 + c / 64), Letter(c % 64)], false)
            == Some([a, b, c])
    ensures DecodeGroup([Letter(a / 4), Letter(a % 4 * 16 + b / 16), Letter(b % 16 * 4 + c / 64), Letter(c % 64)], true)
            == Some([a, b, c])
  {
    hide Letter, Sextet;
    LettersReadBack(a / 4);
    LettersReadBack(a % 4 * 16 + b / 16);
    LettersReadBack(b % 16 * 4 + c / 64);
    LettersReadBack(c % 64);
  }

  /** Four letters carry three bytes, the most significant bits first. */
  lemma GroupIsBigEndian(g: string, last: bool)
    requires |g| == 4 && DecodeGroup(g, last).Some? && |DecodeGroup(g, last).value| == 3
    ensures forall i | 0 <= i < 4 :: Sextet(g[i]).Some?
    ensures var b := DecodeGroup(g, last).value;
            b[0] as int * 0x1_0000 + b[1] as int * 0x100 + b[2] as int ==
            Sextet(g[0]).value as int * 0x4_0000 + Sextet(g[1]).value as int * 0x1000
            + Sextet(g[2]).value as int * 0x40 + Sextet(g[3]).value as int
  {
    hide Sextet;
  }

  /** The first test vectors of section 10 of RFC 4648. */
  lemma EncodesTestVectors()
    ensures Encode([0x66]) == "Zg==" && Encode([0x66, 0x6f]) == "Zm8=" && Encode([0x66, 0x6f, 0x6f]) == "Zm9v"
    ensures Encode([0x66, 0x6f, 0x6f, 0x62]) == "Zm9vYg=="
  {
    assert [0x66, 0x6f, 0x6f][3..] == [];
    assert [0x66, 0x6f, 0x6f, 0x62][3..] == [0x62];
  }

  lemma ShortGroups(a: byte, b: byte)
    ensures DecodeGroup([Letter(a / 4), Letter(a % 4 * 16), '=', '='], true) == Some([a])
    ensures DecodeGroup([Letter(a / 4), Letter(a % 4 * 16 + b / 16), Letter(b % 16 * 4), '='], true) == Some([a, b])
  {
    hide Letter, Sextet;
    LettersReadBack(a / 4);
    LettersReadBack(a % 4 * 16);
    LettersReadBack(a % 4 * 16 + b / 16);
    LettersReadBack(b % 16 * 4);
  }

  lemma {:induction false} EncodeDecodes(b: seq<byte>)
    ensures Decode(Encode(b)) == Some(b)
  {
    hide DecodeGroup, Letter;
    if |b| == 0 {
    } else {
      var e := Encode(b);
      if |b| <= 2 {
        ShortGroups(b[0], b[|b| - 1]);
        assert e[..4] == e && e[4..] == "";
        assert b + [] == b == if |b| == 1 then [b[0]] else [b[0], b[1]];
      } else {
        ThreeBytes(b[0], b[1], b[2]);
        EncodeDecodes(b[3..]);
        assert e[4..] == Encode(b[3..]);
        assert e[..4] == [Letter(b[0] / 4), Letter(b[0] % 4 * 16 + b[1] / 16), Letter(b[1] % 16 * 4 + b[2] / 64), Letter(b[2] % 64)];
        assert b == [b[0], b[1], b[2]] + b[3..];
      }
    }
  }

  /** The preflight is exact on everything that is properly encoded. */
  lemma EncodedSizeIsExact(b: seq<byte>)
    ensures Estimate(Encode(b)) == |b|
  {
    EncodeDecodes(b);
    EstimateIsExact(Encode(b));
  }

  // ---------------------------------------------------------------------
  // WAV
  // ---------------------------------------------------------------------

  const RIFF: seq<byte> := [0x52, 0x49, 0x46, 0x46]
  const WAVE: seq<byte> := [0x57, 0x41, 0x56, 0x45]
  const FMT: seq<byte> := [0x66, 0x6d, 0x74, 0x20]
  const DATA: seq<byte> := [0x64, 0x61, 0x74, 0x61]

  function Ascii(s: string): seq<int> {
    seq(|s|, i requires 0 <= i < |s| => s[i] as int)
  }

  lemma TagsAreAscii()
    ensures RIFF == Ascii("RIFF") && WAVE == Ascii("WAVE") && FMT == Ascii("fmt ") && DATA == Ascii("data")
  {
  }

  /** The little-endian unsigned 32-bit number at `offset`. */
  function Word(raw: seq<byte>, offset: nat): (n: nat)
    requires offset + 4 <= |raw|
    ensures n < 0x1_0000_0000
  {
    raw[offset] as int + raw[offset + 1] as int * 0x100 + raw[offset + 2] as int * 0x1_0000 + raw[offset + 3] as int * 0x100_0000
  }

  function WordBytes(n: nat): (b: seq<byte>)
    requires n < 0x1_0000_0000
    ensures |b| == 4
  {
    [n % 0x100, n / 0x100 % 0x100, n / 0x1_0000 % 0x100, n / 0x100_0000]
  }

  /** The chunk walk from `offset`: the last byte rate seen, and the size declared by the first data chunk. */
  function Walk(raw: seq<byte>, offset: nat, rate: Option<nat>): (Option<nat>, Option<nat>)
    decreases |raw| - offset
  {
    if offset + 8 > |raw| then (rate, None)
    else
      var id, size := raw[offset..offset + 4], Word(raw, offset + 4);
      var body := offset + 8;
      if id == DATA then (rate, Some(size))
      else
        Walk(raw, body + size + size % 2, if id == FMT && body + 16 <= |raw| then Some(Word(raw, body + 8)) else rate)
  }

  predicate IsWave(raw: seq<byte>) {
    |raw| >= 12 && raw[..4] == RIFF && raw[8..12] == WAVE
  }

  // The layout the walk undoes

  /** A chunk other than the data chunk; `pad` follows payloads of odd size. */
  datatype Chunk = Chunk(id: seq<byte>, payload: seq<byte>, pad: byte)

  predicate WellFormed(c: Chunk) {
    |c.id| == 4 && c.id != DATA && |c.payload| < 0x1_0000_0000
  }

  function Layout(c: Chunk): seq<byte>
    requires WellFormed(c)
  {
    c.id + WordBytes(|c.payload|) + c.payload + if |c.payload| % 2 == 1 then [c.pad] else []
  }

  ghost function Layouts(chunks: seq<Chunk>): seq<byte>
    requires forall c <- chunks :: WellFormed(c)
  {
    if chunks == [] then [] else assert WellFormed(chunks[0]); Layout(chunks[0]) + Layouts(chunks[1..])
  }

  function DataChunk(size: nat, rest: seq<byte>): seq<byte>
    requires size < 0x1_0000_0000
  {
    DATA + WordBytes(size) + rest
  }

  /** A RIFF/WAVE file: header, other chunks, and a data chunk declaring `size` bytes with whatever follows. */
  ghost function File(riffSize: nat, chunks: seq<Chunk>, size: nat, rest: seq<byte>): seq<byte>
    requires riffSize < 0x1_0000_0000 && size < 0x1_0000_0000 && forall c <- chunks :: WellFormed(c)
  {
    RIFF + WordBytes(riffSize) + WAVE + (Layouts(chunks) + DataChunk(size, rest))
  }

  /** The byte rate after a chunk: a `fmt ` chunk sets it from its offset 16, wherever that is, if 24 bytes are left in the file. */
  function RateAfter(c: Chunk, more: seq<byte>, rate: Option<nat>): Option<nat>
    requires WellFormed(c)
  {
    if c.id == FMT && |Layout(c) + more| >= 24 then Some(Word(Layout(c) + more, 16)) else rate
  }

  /** The byte rate after several chunks and before `tail`. */
  ghost function RateSeen(chunks: seq<Chunk>, tail: seq<byte>, rate: Option<nat>): Option<nat>
    requires forall c <- chunks :: WellFormed(c)
    decreases |chunks|
  {
    if chunks == [] then rate
    else
      assert WellFormed(chunks[0]);
      RateSeen(chunks[1..], tail, RateAfter(chunks[0], Layouts(chunks[1..]) + tail, rate))
  }

  /** A `fmt ` chunk that reaches as far as its byte rate, at offset 8 of the payload. */
  predicate HoldsRate(c: Chunk) {
    c.id == FMT && |c.payload| >= 12
  }

  /** The byte rate that the file declares: that of the last `fmt ` chunk that holds one. */
  function DeclaredRate(chunks: seq<Chunk>, rate: Option<nat>): Option<nat> {
    if chunks == [] then rate
    else DeclaredRate(chunks[1..], if HoldsRate(chunks[0]) then Some(Word(chunks[0].payload, 8)) else rate)
  }

  lemma DigitsOf(n: nat)
    ensures n == n % 0x100 + n / 0x100 % 0x100 * 0x100 + n / 0x1_0000 % 0x100 * 0x1_0000 + n / 0x100_0000 * 0x100_0000
  {
    assert n / 0x1_0000 == n / 0x100 / 0x100 && n / 0x100_0000 == n / 0x1_0000 / 0x100;
  }

  lemma DigitsBack(a: byte, b: byte, c: byte, d: byte)
    ensures WordBytes(a as int + b as int * 0x100 + c as int * 0x1_0000 + d as int * 0x100_0000) == [a, b, c, d]
  {
    var n := a as int + b as int * 0x100 + c as int * 0x1_0000 + d as int * 0x100_0000;
    assert n / 0x100_0000 == d && n / 0x1_0000 == c + d * 0x100 && n / 0x100 == b + c * 0x100 + d * 0x1_0000;
  }

  lemma WordRoundTrip(raw: seq<byte>, offset: nat)
    requires offset + 4 <= |raw|
    ensures WordBytes(Word(raw, offset)) == raw[offset..offset + 4]
  {
    hide WordBytes;
    DigitsBack(raw[offset], raw[offset + 1], raw[offset + 2], raw[offset + 3]);
  }

  lemma WordBytesRoundTrip(n: nat, raw: seq<byte>, offset: nat)
    requires n < 0x1_0000_0000 && offset + 4 <= |raw| && raw[offset..offset + 4] == WordBytes(n)
    ensures Word(raw, offset) == n
  {
    DigitsOf(n);
    var w := raw[offset..offset + 4];
    assert w[0] == raw[offset] && w[1] == raw[offset + 1] && w[2] == raw[offset + 2] && w[3] == raw[offset + 3];
  }

  lemma SliceOfSlice(raw: seq<byte>, a: nat, i: nat, j: nat)
    requires a <= |raw| && i <= j && a + j <= |raw|
    ensures raw[a..][i..j] == raw[a + i..a + j]
  {
  }

  /** What the walk reads at the start of a laid-out chunk. */
  lemma ChunkAt(raw: seq<byte>, offset: nat, c: Chunk, rest: seq<byte>)
    requires WellFormed(c) && offset <= |raw| && raw[offset..] == Layout(c) + rest
    ensures offset + 8 + |c.payload| + |c.payload| % 2 <= |raw|
    ensures raw[offset..offset + 4] == c.id && Word(raw, offset + 4) == |c.payload|
    ensures raw[offset + 8..offset + 8 + |c.payload|] == c.payload
    ensures raw[offset + 8 + |c.payload| + |c.payload| % 2..] == rest
  {
    var n := |c.payload|;
    var tail := raw[offset..];
    assert |tail| == |raw| - offset;
    assert tail[..4] == c.id;
    assert tail[4..8] == WordBytes(n);
    assert tail[8..8 + n] == c.payload;
    assert tail[8 + n + n % 2..] == rest;
    SliceOfSlice(raw, offset, 0, 4);
    SliceOfSlice(raw, offset, 4, 8);
    SliceOfSlice(raw, offset, 8, 8 + n);
    WordBytesRoundTrip(n, raw, offset + 4);
  }

  lemma WordInSlice(raw: seq<byte>, a: nat, b: nat, i: nat)
    requires a + i + 4 <= b <= |raw|
    ensures Word(raw[a..b], i) == Word(raw, a + i)
  {
  }

  /** The walk steps over a laid-out chunk to what follows it. */
  lemma WalkStep(raw: seq<byte>, offset: nat, c: Chunk, more: seq<byte>, rate: Option<nat>) returns (next: nat)
    requires WellFormed(c) && offset <= |raw| && raw[offset..] == Layout(c) + more
    ensures next <= |raw| && raw[next..] == more
    ensures Walk(raw, offset, rate) == Walk(raw, next, RateAfter(c, more, rate))
  {
    hide Word, Layout;
    ChunkAt(raw, offset, c, more);
    next := offset + 8 + |c.payload| + |c.payload| % 2;
    assert raw[offset..|raw|] == Layout(c) + more;
    if c.id == FMT && offset + 24 <= |raw| {
      WordInSlice(raw, offset, |raw|, 16);
      assert RateAfter(c, more, rate) == Some(Word(raw, offset + 16));
    }
  }

  /** The walk ends at a data chunk. */
  lemma WalkEnd(raw: seq<byte>, offset: nat, size: nat, rest: seq<byte>, rate: Option<nat>)
    requires size < 0x1_0000_0000 && offset <= |raw| && raw[offset..] == DataChunk(size, rest)
    ensures Walk(raw, offset, rate) == (rate, Some(size))
  {
    var tail := raw[offset..];
    assert tail[..4] == DATA && tail[4..8] == WordBytes(size);
    SliceOfSlice(raw, offset, 0, 4);
    SliceOfSlice(raw, offset, 4, 8);
    WordBytesRoundTrip(size, raw, offset + 4);
  }

  lemma {:induction false} WalkFromLayout(raw: seq<byte>, offset: nat, chunks: seq<Chunk>, size: nat, rest: seq<byte>, rate: Option<nat>)
    requires size < 0x1_0000_0000 && offset <= |raw| && forall c <- chunks :: WellFormed(c)
    requires raw[offset..] == Layouts(chunks) + DataChunk(size, rest)
    ensures Walk(raw, offset, rate) == (RateSeen(chunks, DataChunk(size, rest), rate), Some(size))
    decreases |chunks|
  {
    hide Walk, Layout, DataChunk, Word, WellFormed, RateAfter;
    if chunks == [] {
      assert raw[offset..] == DataChunk(size, rest);
      WalkEnd(raw, offset, size, rest, rate);
    } else {
      var more := Layouts(chunks[1..]) + DataChunk(size, rest);
      assert chunks[0] in chunks;
      assert raw[offset..] == Layout(chunks[0]) + more;
      var next := WalkStep(raw, offset, chunks[0], more, rate);
      WalkFromLayout(raw, next, chunks[1..], size, rest, RateAfter(chunks[0], more, rate));
    }
  }

  lemma HeaderOf(riffSize: nat, chunks: seq<Chunk>, size: nat, rest: seq<byte>)
    requires riffSize < 0x1_0000_0000 && size < 0x1_0000_0000 && forall c <- chunks :: WellFormed(c)
    ensures var raw := File(riffSize, chunks, size, rest);
            IsWave(raw) && raw[12..] == Layouts(chunks) + DataChunk(size, rest)
  {
  }

  /** The walk undoes the layout, whatever the chunks: the size that the first data chunk declares, and the rate seen on the way. */
  lemma WalkUndoesLayout(riffSize: nat, chunks: seq<Chunk>, size: nat, rest: seq<byte>)
    requires riffSize < 0x1_0000_0000 && size < 0x1_0000_0000 && forall c <- chunks :: WellFormed(c)
    ensures var raw := File(riffSize, chunks, size, rest);
            IsWave(raw) && Walk(raw, 12, None) == (RateSeen(chunks, DataChunk(size, rest), None), Some(size))
  {
    HeaderOf(riffSize, chunks, size, rest);
    WalkFromLayout(File(riffSize, chunks, size, rest), 12, chunks, size, rest, None);
  }

  // Whether the rate seen is the declared one

  /** From a chunk that holds its rate the walk takes that rate, whatever follows. */
  lemma HeldRateIsSeen(c: Chunk, more: seq<byte>, rate: Option<nat>)
    requires WellFormed(c) && HoldsRate(c) && |more| >= 8
    ensures RateAfter(c, more, rate) == Some(Word(c.payload, 8))
  {
    var raw, n := Layout(c) + more, |c.payload|;
    assert raw[8..8 + n] == c.payload;
    WordInSlice(raw, 8, 8 + n, 8);
  }

  ghost predicate AlwaysReads(payload: seq<byte>, rate: Option<nat>)
    requires |payload| < 0x1_0000_0000
  {
    forall pad: byte, more: seq<byte> | |more| >= 8 :: RateAfter(Chunk(FMT, payload, pad), more, None) == rate
  }

  function Repeated(x: byte): (s: seq<byte>)
    ensures |s| == 16
  {
    [x, x, x, x, x, x, x, x, x, x, x, x, x, x, x, x]
  }

  /** Byte 19 of the file from a shorter chunk on, the highest of the rate, is not the chunk's. */
  lemma ForeignByte(payload: seq<byte>, x: byte)
    requires |payload| < 12
    ensures var raw := Layout(Chunk(FMT, payload, x)) + Repeated(x);
            |raw| >= 24 && raw[19] == x && Word(raw, 16) / 0x100_0000 == x
  {
    var c := Chunk(FMT, payload, x);
    var raw := Layout(c) + Repeated(x);
    assert |Layout(c)| == 8 + |payload| + |payload| % 2;
    assert |Layout(c)| == 20 ==> raw[19] == Layout(c)[19] == x;
    assert |Layout(c)| < 20 ==> raw[19] == Repeated(x)[19 - |Layout(c)|];
  }

  /**
   A `fmt ` chunk alone decides the rate that is read from it - for every padding byte and everything
   that can follow it up to a data chunk's header - exactly if its payload has at least 12 bytes.
   */
  lemma RateIsTheChunksOwn(payload: seq<byte>)
    requires |payload| < 0x1_0000_0000
    ensures (exists rate :: AlwaysReads(payload, rate)) <==> |payload| >= 12
  {
    if |payload| >= 12 {
      forall pad: byte, more: seq<byte> | |more| >= 8
        ensures RateAfter(Chunk(FMT, payload, pad), more, None) == Some(Word(payload, 8))
      {
        HeldRateIsSeen(Chunk(FMT, payload, pad), more, None);
      }
      assert AlwaysReads(payload, Some(Word(payload, 8)));
    } else {
      ForeignByte(payload, 0);
      ForeignByte(payload, 1);
      var zeros, ones := Repeated(0), Repeated(1);
      assert RateAfter(Chunk(FMT, payload, 0), zeros, None) != RateAfter(Chunk(FMT, payload, 1), ones, None);
    }
  }

  /**
   A chunk that is too short to hold its rate does no harm if a later one holds one, or if the file
   ends within 24 bytes of its start.
   */
  ghost predicate Overridden(chunks: seq<Chunk>, tail: seq<byte>)
    requires forall c <- chunks :: WellFormed(c)
    decreases |chunks|
  {
    chunks == [] ||
    (assert WellFormed(chunks[0]);
     && Overridden(chunks[1..], tail)
     && (chunks[0].id == FMT && !HoldsRate(chunks[0]) && |Layout(chunks[0]) + (Layouts(chunks[1..]) + tail)| >= 24 ==>
           exists c <- chunks[1..] :: HoldsRate(c)))
  }

  lemma {:induction false} DeclaredLater(chunks: seq<Chunk>, rate: Option<nat>, other: Option<nat>)
    requires exists c <- chunks :: HoldsRate(c)
    ensures DeclaredRate(chunks, rate) == DeclaredRate(chunks, other)
    decreases |chunks|
  {
    if HoldsRate(chunks[0]) {
    } else {
      var c :| c in chunks && HoldsRate(c);
      assert c in chunks[1..];
      DeclaredLater(chunks[1..], rate, other);
    }
  }

  /** Then the rate seen is the declared one. */
  lemma {:induction false} SeenIsDeclared(chunks: seq<Chunk>, tail: seq<byte>, rate: Option<nat>)
    requires (forall c <- chunks :: WellFormed(c)) && |tail| >= 8 && Overridden(chunks, tail)
    ensures RateSeen(chunks, tail, rate) == DeclaredRate(chunks, rate)
    decreases |chunks|
  {
    hide Word, Layout, WellFormed;
    if chunks == [] {
    } else {
      assert chunks[0] in chunks;
      var more := Layouts(chunks[1..]) + tail;
      var rate' := RateAfter(chunks[0], more, rate);
      SeenIsDeclared(chunks[1..], tail, rate');
      if HoldsRate(chunks[0]) {
        HeldRateIsSeen(chunks[0], more, rate);
      } else if rate' != rate {
        DeclaredLater(chunks[1..], rate', rate);
      }
    }
  }

  lemma {:induction false} NoneDeclared(chunks: seq<Chunk>, rate: Option<nat>)
    requires forall c <- chunks :: !HoldsRate(c)
    ensures DeclaredRate(chunks, rate) == rate
    decreases |chunks|
  {
    if chunks == [] {
    } else {
      assert chunks[0] in chunks;
      NoneDeclared(chunks[1..], rate);
    }
  }

  /** Otherwise it is read from a chunk too short to hold it, across the chunk's end (`ForeignByte`). */
  lemma {:induction false} SeenIsForeign(chunks: seq<Chunk>, tail: seq<byte>, rate: Option<nat>) returns (i: nat)
    requires (forall c <- chunks :: WellFormed(c)) && |tail| >= 8 && !Overridden(chunks, tail)
    ensures i < |chunks| && chunks[i].id == FMT && |chunks[i].payload| < 12 && WellFormed(chunks[i])
    ensures var raw := Layout(chunks[i]) + (Layouts(chunks[i + 1..]) + tail);
            |raw| >= 24 && RateSeen(chunks, tail, rate) == Some(Word(raw, 16))
    decreases |chunks|
  {
    hide Word, Layout, WellFormed;
    assert chunks[0] in chunks;
    var more := Layouts(chunks[1..]) + tail;
    var rate' := RateAfter(chunks[0], more, rate);
    if Overridden(chunks[1..], tail) {
      i := 0;
      SeenIsDeclared(chunks[1..], tail, rate');
      NoneDeclared(chunks[1..], rate');
    } else {
      i := SeenIsForeign(chunks[1..], tail, rate');
      assert chunks[1..][i] == chunks[i + 1] && chunks[1..][i + 1..] == chunks[i + 2..];
      i := i + 1;
    }
  }

  lemma {:induction false} AllHeldOverridden(chunks: seq<Chunk>, tail: seq<byte>)
    requires forall c <- chunks :: WellFormed(c) && (c.id == FMT ==> HoldsRate(c))
    ensures Overridden(chunks, tail)
    decreases |chunks|
  {
    hide WellFormed, Layout;
    if chunks == [] {
    } else {
      assert chunks[0] in chunks;
      AllHeldOverridden(chunks[1..], tail);
    }
  }

  /**
   The duration found is the declared size over the declared rate in every file whose short `fmt `
   chunks are overridden, in particular if every `fmt ` payload has at least 12 bytes.
   */
  lemma DurationIsDeclared(riffSize: nat, chunks: seq<Chunk>, size: nat, rest: seq<byte>)
    requires riffSize < 0x1_0000_0000 && size < 0x1_0000_0000 && forall c <- chunks :: WellFormed(c)
    ensures Overridden(chunks, DataChunk(size, rest)) ==>
              Walk(File(riffSize, chunks, size, rest), 12, None) == (DeclaredRate(chunks, None), Some(size))
    ensures (forall c <- chunks :: c.id == FMT ==> |c.payload| >= 12) ==> Overridden(chunks, DataChunk(size, rest))
  {
    WalkUndoesLayout(riffSize, chunks, size, rest);
    if Overridden(chunks, DataChunk(size, rest)) {
      SeenIsDeclared(chunks, DataChunk(size, rest), None);
    }
    if forall c <- chunks :: c.id == FMT ==> |c.payload| >= 12 {
      AllHeldOverridden(chunks, DataChunk(size, rest));
    }
  }

  lemma LettersOfData(c: Chunk, size: nat, rest: seq<byte>)
    requires WellFormed(c) && c.id == FMT && |c.payload| == 8 && size < 0x1_0000_0000
    ensures RateAfter(c, DataChunk(size, rest), None) == Some(0x6174_6164)
  {
    hide WordBytes;
    var raw := Layout(c) + DataChunk(size, rest);
    assert |Layout(c)| == 16;
    assert raw[16..20] == DataChunk(size, rest)[..4] == DATA;
    assert raw[16] == raw[16..20][0] && raw[17] == raw[16..20][1] && raw[18] == raw[16..20][2] && raw[19] == raw[16..20][3];
  }

  lemma NoLayouts()
    ensures Layouts([]) == []
  {
  }

  /** Otherwise it can be wrong: after an eight-byte `fmt ` chunk the letters of "data" are taken for the rate. */
  lemma ShortFormatMisleads(riffSize: nat, c: Chunk, size: nat, rest: seq<byte>)
    requires WellFormed(c) && c.id == FMT && |c.payload| == 8 && riffSize < 0x1_0000_0000 && size < 0x1_0000_0000
    ensures DeclaredRate([c], None) == None
    ensures Walk(File(riffSize, [c], size, rest), 12, None) == (Some(0x6174_6164), Some(size))
  {
    hide Walk, WordBytes, Word, Layout, File, DataChunk;
    WalkUndoesLayout(riffSize, [c], size, rest);
    LettersOfData(c, size, rest);
    NoLayouts();
    assert [c][1..] == [] && [] + DataChunk(size, rest) == DataChunk(size, rest);
  }

  /** A chunk as the walk sees it at `offset`, when it fits. */
  function Seen(raw: seq<byte>, offset: nat): Chunk
    requires offset + 8 <= |raw| && offset + 8 + Word(raw, offset + 4) + Word(raw, offset + 4) % 2 <= |raw|
  {
    var n := Word(raw, offset + 4);
    Chunk(raw[offset..offset + 4], raw[offset + 8..offset + 8 + n], if n % 2 == 1 then raw[offset + 8 + n] else 0)
  }

  lemma Cut(raw: seq<byte>, a: nat, b: nat, c: nat)
    requires a <= b <= c <= |raw|
    ensures raw[a..c] == raw[a..b] + raw[b..c]
  {
  }

  lemma SeenLaysOut(raw: seq<byte>, offset: nat)
    requires offset + 4 <= |raw| && raw[offset..offset + 4] != DATA
    requires offset + 8 <= |raw| && offset + 8 + Word(raw, offset + 4) + Word(raw, offset + 4) % 2 <= |raw|
    ensures var n := Word(raw, offset + 4);
            Layout(Seen(raw, offset)) == raw[offset..offset + 8 + n + n % 2]
  {
    hide Word, WordBytes;
    WordRoundTrip(raw, offset + 4);
    var n := Word(raw, offset + 4);
    Cut(raw, offset, offset + 4, offset + 8);
    Cut(raw, offset, offset + 8, offset + 8 + n);
    Cut(raw, offset, offset + 8 + n, offset + 8 + n + n % 2);
  }

  /** A walk that finds a data chunk stops at it, or steps over a chunk that fits. */
  lemma WalkUnfolds(raw: seq<byte>, offset: nat, rate: Option<nat>) returns (next: nat, rate': Option<nat>)
    requires offset <= |raw| && Walk(raw, offset, rate).1.Some?
    ensures offset + 8 <= |raw|
    ensures raw[offset..offset + 4] == DATA ==> Walk(raw, offset, rate).1 == Some(Word(raw, offset + 4))
    ensures raw[offset..offset + 4] != DATA ==>
              && next == offset + 8 + Word(raw, offset + 4) + Word(raw, offset + 4) % 2 <= |raw|
              && Walk(raw, offset, rate) == Walk(raw, next, rate')
  {
    next := offset + 8 + Word(raw, offset + 4) + Word(raw, offset + 4) % 2;
    rate' := if raw[offset..offset + 4] == FMT && offset + 24 <= |raw| then Some(Word(raw, offset + 16)) else rate;
  }

  lemma MoreLayouts(c: Chunk, more: seq<Chunk>)
    requires WellFormed(c) && forall d <- more :: WellFormed(d)
    ensures Layouts([c] + more) == Layout(c) + Layouts(more)
  {
    assert ([c] + more)[1..] == more;
  }

  lemma {:induction false} WalkSeesLayout(raw: seq<byte>, offset: nat, rate: Option<nat>)
    returns (chunks: seq<Chunk>, rest: seq<byte>)
    requires offset <= |raw| && Walk(raw, offset, rate).1.Some?
    ensures forall c <- chunks :: WellFormed(c)
    ensures var size := Walk(raw, offset, rate).1.value;
            size < 0x1_0000_0000 && raw[offset..] == Layouts(chunks) + DataChunk(size, rest)
    decreases |raw| - offset
  {
    hide Walk, Layout, Word, Layouts, WordBytes;
    var size := Walk(raw, offset, rate).1.value;
    var next, rate' := WalkUnfolds(raw, offset, rate);
    if raw[offset..offset + 4] == DATA {
      chunks, rest := [], raw[offset + 8..];
      WordRoundTrip(raw, offset + 4);
      NoLayouts();
      Cut(raw, offset, offset + 4, offset + 8);
      Cut(raw, offset, offset + 8, |raw|);
    } else {
      var more;
      more, rest := WalkSeesLayout(raw, next, rate');
      var c := Seen(raw, offset);
      SeenLaysOut(raw, offset);
      chunks := [c] + more;
      MoreLayouts(c, more);
      Cut(raw, offset, next, |raw|);
    }
  }

  ghost predicate IsLayout(raw: seq<byte>, riffSize: nat, chunks: seq<Chunk>, size: nat, rest: seq<byte>) {
    && riffSize < 0x1_0000_0000 && size < 0x1_0000_0000 && (forall c <- chunks :: WellFormed(c))
    && raw == File(riffSize, chunks, size, rest)
  }

  /** On arbitrary bytes: the walk finds a data size exactly in files laid out as RIFF/WAVE says, and it is the declared one. */
  lemma DataFoundOnlyInLayouts(raw: seq<byte>, size: nat)
    ensures IsWave(raw) && Walk(raw, 12, None).1 == Some(size) <==>
            exists riffSize: nat, chunks, rest :: IsLayout(raw, riffSize, chunks, size, rest)
  {
    if IsWave(raw) && Walk(raw, 12, None).1 == Some(size) {
      var chunks, rest := WalkSeesLayout(raw, 12, None);
      WordRoundTrip(raw, 4);
      assert raw == raw[..4] + raw[4..8] + raw[8..12] + raw[12..];
      assert IsLayout(raw, Word(raw, 4), chunks, size, rest);
    }
    if riffSize: nat, chunks, rest :| IsLayout(raw, riffSize, chunks, size, rest) {
      HeaderOf(riffSize, chunks, size, rest);
      WalkFromLayout(raw, 12, chunks, size, rest, None);
    }
  }

  /** The declared rate and size are what the walk finds in a file whose short `fmt ` chunks are overridden. */
  lemma LayoutsAreWalked(raw: seq<byte>)
    ensures forall riffSize: nat, chunks, size: nat, rest
              | IsLayout(raw, riffSize, chunks, size, rest) && Overridden(chunks, DataChunk(size, rest)) ::
              IsWave(raw) && Walk(raw, 12, None) == (DeclaredRate(chunks, None), Some(size))
  {
    hide Walk, DeclaredRate, IsWave, Overridden;
    forall riffSize: nat, chunks, size: nat, rest
      | IsLayout(raw, riffSize, chunks, size, rest) && Overridden(chunks, DataChunk(size, rest))
      ensures IsWave(raw) && Walk(raw, 12, None) == (DeclaredRate(chunks, None), Some(size))
    {
      WalkUndoesLayout(riffSize, chunks, size, rest);
      DurationIsDeclared(riffSize, chunks, size, rest);
    }
  }

  /** A duration that, at the rate, takes up the size; none exactly without a size or a positive rate. */
  ghost predicate PlaysAs(duration: Option<real>, rate: Option<nat>, size: Option<nat>) {
    && (duration.Some? <==> rate.Some? && rate.value > 0 && size.Some?)
    && (duration.Some? ==> duration.value * rate.value as real == size.value as real)
  }

  /** There is one such duration. */
  lemma PlaysAsOne(duration: Option<real>, duration': Option<real>, rate: Option<nat>, size: Option<nat>)
    requires PlaysAs(duration, rate, size) && PlaysAs(duration', rate, size)
    ensures duration == duration'
    ensures duration.Some? ==> duration.value * rate.value as real == size.value as real
  {
    if duration.Some? {
      var d, e, r := duration.value, duration'.value, rate.value as real;
      assert (d - e) * r == 0.0 && r > 0.0;
    }
  }

  lemma QuotientPlays(rate: nat, size: nat)
    requires rate > 0
    ensures PlaysAs(Some(size as real / rate as real), Some(rate), Some(size))
  {
    var x, y := size as real, rate as real;
    assert x / y * y == x;
  }

  lemma NothingPlays(rate: Option<nat>, size: Option<nat>)
    requires rate.None? || rate.value == 0 || size.None?
    ensures PlaysAs(None, rate, size)
  {
  }

  /**
   The seconds that, at the byte rate found, the data takes: the declared size over the declared rate in
   every file whose short `fmt ` chunks are overridden; none exactly if no positive rate or no size is found.
   */
  method ParseWavDuration(raw: seq<byte>) returns (duration: Option<real>)
    ensures if IsWave(raw) then PlaysAs(duration, Walk(raw, 12, None).0, Walk(raw, 12, None).1) else duration == None
    ensures forall riffSize: nat, chunks, size: nat, rest
              | IsLayout(raw, riffSize, chunks, size, rest) && Overridden(chunks, DataChunk(size, rest)) ::
              PlaysAs(duration, DeclaredRate(chunks, None), Some(size))
  {
    hide PlaysAs, Word, IsLayout, Overridden, DeclaredRate, DataChunk;
    LayoutsAreWalked(raw);
    if |raw| < 12 {
      return None;
    }
    if raw[..4] != RIFF || raw[8..12] != WAVE {
      return None;
    }
    var offset := 12;
    var byteRate: Option<nat> := None;
    var dataSize: Option<nat> := None;
    while offset + 8 <= |raw|
      invariant offset >= 12
      invariant dataSize == None
      invariant Walk(raw, 12, None) == Walk(raw, offset, byteRate)
      decreases |raw| - offset
    {
      var chunkId := raw[offset..offset + 4];
      var chunkSize := Word(raw, offset + 4);
      offset := offset + 8;
      if chunkId == FMT && offset + 16 <= |raw| {
        byteRate := Some(Word(raw, offset + 8));
      } else if chunkId == DATA {
        dataSize := Some(chunkSize);
        break;
      }
      offset := offset + chunkSize;
      if chunkSize % 2 == 1 {
        offset := offset + 1;
      }
    }
    if byteRate.Some? && dataSize.Some? && byteRate.value > 0 {
      QuotientPlays(byteRate.value, dataSize.value);
      return Some(dataSize.value as real / byteRate.value as real);
    }
    NothingPlays(byteRate, dataSize);
    duration := None;
  }
}
