/** `base64_encode_svg` (qrcode-lib/examples/branded.rs): the UTF-8 bytes of an SVG
    text in base64 with padding, as in section 4 of RFC 4648, behind the prefix of a
    data URI. */
module Base64 {
  import opened QrTypes

  /** The 64 characters of the base64 alphabet, by index. */
  const Alphabet: string := "ABCDEFGHIJKLMNOPQRSTUVWXYZ" + "abcdefghijklmnopqrstuvwxyz" + "0123456789" + "+/"

  const Prefix: string := "data:image/svg+xml;base64,"

  /** Character k of the alphabet, by its ranges: capitals, small letters, digits,
      then `+` and `/`. */
  function SextetChar(k: nat): char
    requires k < 64
  {
    if k < 26 then ('A' as int + k) as char
    else if k < 52 then ('a' as int + (k - 26)) as char
    else if k < 62 then ('0' as int + (k - 52)) as char
    else if k == 62 then '+' else '/'
  }

  lemma AlphabetRanges()
    ensures |Alphabet| == 64
    ensures forall k :: 0 <= k < 64 ==> Alphabet[k] == SextetChar(k)
  {
    forall k | 0 <= k < 64
      ensures Alphabet[k] == SextetChar(k)
    {
      if k < 26 {
        assert Alphabet[k] == "ABCDEFGHIJKLMNOPQRSTUVWXYZ"[k];
      }
    }
  }

  /** The index of c in the alphabet, or None when c is not one of its characters. */
  function SextetOf(c: char): Option<nat>
  {
    if 'A' <= c <= 'Z' then Some(c as int - 'A' as int)
    else if 'a' <= c <= 'z' then Some(c as int - 'a' as int + 26)
    else if '0' <= c <= '9' then Some(c as int - '0' as int + 52)
    else if c == '+' then Some(62)
    else if c == '/' then Some(63)
    else None
  }

  /** `SextetOf` inverts the alphabet: it finds every alphabet character at its own
      index and nothing else, so the 64 characters are distinct and `=` is not one of
      them. */
  lemma SextetOfAlphabet()
    ensures forall k :: 0 <= k < 64 ==> SextetOf(Alphabet[k]) == Some(k)
    ensures forall c :: SextetOf(c).Some? <==> c in Alphabet
    ensures '=' !in Alphabet
  {
    AlphabetRanges();
    forall k | 0 <= k < 64
      ensures SextetOf(Alphabet[k]) == Some(k)
    {
      SextetOfChar(k);
    }
    forall c | SextetOf(c).Some?
      ensures c in Alphabet
    {
      CharOfSextet(c);
      assert Alphabet[SextetOf(c).value] == c;
    }
  }

  lemma SextetOfChar(k: nat)
    requires k < 64
    ensures SextetOf(SextetChar(k)) == Some(k)
  {
    if k < 26 {
    } else if k < 52 {
    } else if k < 62 {
    }
  }

  lemma CharOfSextet(c: char)
    requires SextetOf(c).Some?
    ensures SextetOf(c).value < 64 && SextetChar(SextetOf(c).value) == c
  {
  }

  /** `ALPHABET[k]`, behind one layer so that proofs about the encoding do not
      unfold the alphabet; `SymbolDef` opens it. */
  function Symbol(k: nat): char
    requires k < 64
  {
    SymbolLayer(k, 1)
  }

  function SymbolLayer(k: nat, fuel: nat): char
    requires k < 64
    decreases fuel
  {
    if fuel > 0 then SymbolLayer(k, fuel - 1) else Alphabet[k]
  }

  lemma SymbolDef(k: nat)
    requires k < 64
    ensures Symbol(k) == Alphabet[k]
  {
    assert Symbol(k) == SymbolLayer(k, 0);
  }

  /** The four 6-bit groups of the 24 bits b0 b1 b2. The shifts and masks of the
      source are divisions and remainders by powers of two here; the two parts that
      the source joins with `|` occupy disjoint bits, so the join is a sum. */
  function Sextets(b0: byte, b1: byte, b2: byte): (r: seq<nat>)
    ensures |r| == 4 && forall j :: 0 <= j < 4 ==> r[j] < 64
  {
    [b0 / 4, (b0 % 4) * 16 + b1 / 16, (b1 % 16) * 4 + b2 / 64, b2 % 64]
  }

  /** The 24-bit value of three bytes, the first the most significant. */
  function Value24(b0: byte, b1: byte, b2: byte): nat
  {
    b0 as int * 65536 + b1 as int * 256 + b2 as int
  }

  /** The groups are the 24-bit value of the three bytes, taken 6 bits at a time from
      the most significant end. */
  lemma SextetsBigEndian(b0: byte, b1: byte, b2: byte)
    ensures var s := Sextets(b0, b1, b2);
            s[0] * 262144 + s[1] * 4096 + s[2] * 64 + s[3] == Value24(b0, b1, b2)
  {
  }

  /** One chunk of one to three bytes, zero-filled to three, as four characters: the
      third is `=` when the chunk has one byte, the fourth when it has fewer than
      three. The body sits behind one layer so that proofs about whole texts do not
      unfold the arithmetic; `EncodeChunkDef` opens it. */
  function EncodeChunk(chunk: seq<byte>): (r: string)
    requires 1 <= |chunk| <= 3
    ensures |r| == 4
  {
    EncodeChunkLayer(chunk, 1)
  }

  function EncodeChunkLayer(chunk: seq<byte>, fuel: nat): (r: string)
    requires 1 <= |chunk| <= 3
    ensures |r| == 4
    decreases fuel
  {
    if fuel > 0 then EncodeChunkLayer(chunk, fuel - 1)
    else
      var buf := Buffer(chunk);
      var s := Sextets(buf[0], buf[1], buf[2]);
      [Symbol(s[0]), Symbol(s[1]),
       if |chunk| > 1 then Symbol(s[2]) else '=',
       if |chunk| > 2 then Symbol(s[3]) else '=']
  }

  /** The buffer of three bytes holding the chunk, zero-filled. */
  function Buffer(chunk: seq<byte>): (buf: seq<byte>)
    requires |chunk| <= 3
    ensures |buf| == 3 && buf[..|chunk|] == chunk
    ensures forall t :: |chunk| <= t < 3 ==> buf[t] == 0
  {
    chunk + seq(3 - |chunk|, _ => 0)
  }

  lemma EncodeChunkDef(chunk: seq<byte>)
    requires 1 <= |chunk| <= 3
    ensures EncodeChunk(chunk) == EncodeChunkLayer(chunk, 0)
  {
  }

  /** The base64 text of `bytes`: its chunks of three bytes from the front, the last
      one possibly shorter, each as four characters. */
  function Encode(bytes: seq<byte>): string
    decreases |bytes|
  {
    if bytes == [] then []
    else
      var k := if |bytes| < 3 then |bytes| else 3;
      EncodeChunk(bytes[..k]) + Encode(bytes[k..])
  }

  /** `base64_encode_svg`: the prefix, then the base64 text of the bytes. */
  method Base64EncodeSvg(svg: seq<byte>) returns (s: string)
    ensures s == Prefix + Encode(svg)
  {
    var encoded: string := [];
    var i := 0;
    while i < |svg|
      invariant 0 <= i <= |svg|
      invariant encoded + Encode(svg[i..]) == Encode(svg)
    {
      var len := if |svg| - i < 3 then |svg| - i else 3;
      var chunk := svg[i..i + len];
      assert svg[i..][..len] == chunk && svg[i..][len..] == svg[i + len..];
      ghost var rest := Encode(svg[i + len..]);
      assert Encode(svg[i..]) == EncodeChunk(chunk) + rest;
      ghost var before := encoded;
      encoded := PushChunk(encoded, chunk);
      AppendAssoc(before, EncodeChunk(chunk), rest);
      i := i + len;
    }
    s := Prefix + encoded;
  }

  /** Regrouping a concatenation, as a separate step so that the loop above does not
      search for it among its other facts. */
  lemma AppendAssoc(a: string, b: string, c: string)
    ensures (a + b) + c == a + (b + c)
  {
  }

  /** The body of the chunk loop of `base64_encode_svg`: the chunk is copied into a
      zeroed buffer of three bytes, and its four characters are pushed. */
  method PushChunk(encoded: string, chunk: seq<byte>) returns (pushed: string)
    requires 1 <= |chunk| <= 3
    ensures pushed == encoded + EncodeChunk(chunk)
  {
    var buf := new byte[3](_ => 0);
    for j := 0 to |chunk|
      invariant forall t :: 0 <= t < 3 ==> buf[t] == if t < j then chunk[t] else 0
    {
      buf[j] := chunk[j];
    }
    assert buf[..] == Buffer(chunk);
    pushed := PushSextets(encoded, chunk, buf[0], buf[1], buf[2]);
  }

  /** The end of the chunk loop: the four sextets of the buffer x0 x1 x2, as
      characters, with '=' for each byte the chunk lacks. */
  method PushSextets(encoded: string, chunk: seq<byte>, x0: byte, x1: byte, x2: byte) returns (pushed: string)
    requires 1 <= |chunk| <= 3 && Buffer(chunk) == [x0, x1, x2]
    ensures pushed == encoded + EncodeChunk(chunk)
  {
    var b1 := x0 / 4;
    var b2 := (x0 % 4) * 16 + x1 / 16;
    var b3 := (x1 % 16) * 4 + x2 / 64;
    var b4 := x2 % 64;
    var c1 := Symbol(b1);
    var c2 := Symbol(b2);
    var c3 := if |chunk| > 1 then Symbol(b3) else '=';
    var c4 := if |chunk| > 2 then Symbol(b4) else '=';
    pushed := encoded + [c1];
    pushed := pushed + [c2];
    pushed := pushed + [c3];
    pushed := pushed + [c4];
    assert pushed == encoded + [c1, c2, c3, c4];
    EncodeChunkBytes(chunk, x0, x1, x2);
  }

  /** The characters of a chunk, from its zero-filled buffer x0 x1 x2. */
  lemma EncodeChunkBytes(chunk: seq<byte>, x0: byte, x1: byte, x2: byte)
    requires 1 <= |chunk| <= 3 && Buffer(chunk) == [x0, x1, x2]
    ensures EncodeChunk(chunk) ==
            [Symbol(x0 / 4), Symbol((x0 % 4) * 16 + x1 / 16),
             if |chunk| > 1 then Symbol((x1 % 16) * 4 + x2 / 64) else '=',
             if |chunk| > 2 then Symbol(x2 % 64) else '=']
  {
    EncodeChunkDef(chunk);
    var sx := Sextets(x0, x1, x2);
    assert sx == [x0 / 4, (x0 % 4) * 16 + x1 / 16, (x1 % 16) * 4 + x2 / 64, x2 % 64];
  }

  /*---- Properties of the encoding ----*/

  /** Four characters per started chunk of three bytes. */
  lemma {:induction false} EncodeLength(bytes: seq<byte>)
    ensures |Encode(bytes)| == 4 * ((|bytes| + 2) / 3)
    decreases |bytes|
  {
    if bytes != [] {
      var k := if |bytes| < 3 then |bytes| else 3;
      EncodeLength(bytes[k..]);
      ChunkCountStep(|bytes|, k);
    }
  }

  /** Removing one chunk of k bytes removes one started chunk. */
  lemma ChunkCountStep(n: nat, k: nat)
    requires 1 <= k <= n && k == (if n < 3 then n else 3)
    ensures (n + 2) / 3 == (n - k + 2) / 3 + 1
  {
  }

  /** The number of `=` that end the text of n bytes: two after a final chunk of one
      byte, one after a final chunk of two, none when every chunk is full. */
  function PadCount(n: nat): nat
  {
    if n % 3 == 1 then 2 else if n % 3 == 2 then 1 else 0
  }

  /** e is alphabet characters followed by exactly `pad` padding characters. */
  predicate PaddedText(e: string, pad: nat)
  {
    pad <= |e| &&
    (forall p :: 0 <= p < |e| ==> (e[p] == '=' <==> p >= |e| - pad)) &&
    (forall p :: 0 <= p < |e| && e[p] != '=' ==> e[p] in Alphabet)
  }

  /** A chunk of n bytes ends in 3 - n padding characters. */
  lemma ChunkPadding(chunk: seq<byte>)
    requires 1 <= |chunk| <= 3
    ensures PaddedText(EncodeChunk(chunk), 3 - |chunk|)
  {
    var s := ChunkSextets(chunk);
    var g := EncodeChunk(chunk);
    EncodeChunkDef(chunk);
    SextetOfAlphabet();
    SymbolDef(s[0]);
    SymbolDef(s[1]);
    SymbolDef(s[2]);
    SymbolDef(s[3]);
    assert g[0] == Alphabet[s[0]] && g[1] == Alphabet[s[1]];
    assert |chunk| > 1 ==> g[2] == Alphabet[s[2]];
    assert |chunk| > 2 ==> g[3] == Alphabet[s[3]];
  }

  /** An unpadded group followed by a padded text is a padded text. */
  lemma PaddedAppend(head: string, tail: string, pad: nat)
    requires |head| == 4 && PaddedText(head, 0) && PaddedText(tail, pad)
    ensures PaddedText(head + tail, pad)
  {
    var e := head + tail;
    forall p | 0 <= p < |e|
      ensures (e[p] == '=' <==> p >= |e| - pad)
      ensures e[p] != '=' ==> e[p] in Alphabet
    {
      if p < 4 {
        assert e[p] == head[p];
      } else {
        assert e[p] == tail[p - 4];
      }
    }
  }

  /** The text is alphabet characters followed by exactly `PadCount` padding
      characters. */
  lemma {:induction false} EncodePadding(bytes: seq<byte>)
    ensures PaddedText(Encode(bytes), PadCount(|bytes|))
    decreases |bytes|
  {
    if bytes != [] {
      var k := if |bytes| < 3 then |bytes| else 3;
      var head := EncodeChunk(bytes[..k]);
      var tail := Encode(bytes[k..]);
      assert Encode(bytes) == head + tail;
      ChunkPadding(bytes[..k]);
      if k < 3 {
        assert tail == [];
        assert head + tail == head;
      } else {
        EncodePadding(bytes[k..]);
        PaddedAppend(head, tail, PadCount(|bytes| - 3));
      }
    }
  }

  /** Bytes 3k to 3k + 2 (fewer at the end) of `bytes`: its chunk number k. */
  function ChunkAt(bytes: seq<byte>, k: nat): (r: seq<byte>)
    requires 3 * k < |bytes|
    ensures 1 <= |r| <= 3
  {
    bytes[3 * k .. if |bytes| < 3 * k + 3 then |bytes| else 3 * k + 3]
  }

  /** Characters 4k to 4k + 3 of the text are the characters of chunk k. */
  lemma {:induction false} EncodeAt(bytes: seq<byte>, k: nat)
    requires 3 * k < |bytes|
    ensures 4 * k + 4 <= |Encode(bytes)|
    ensures Encode(bytes)[4 * k .. 4 * k + 4] == EncodeChunk(ChunkAt(bytes, k))
    decreases k
  {
    var m := if |bytes| < 3 then |bytes| else 3;
    var head := EncodeChunk(bytes[..m]);
    var rest := bytes[m..];
    var tail := Encode(rest);
    EncodeCons(bytes);
    if k > 0 {
      EncodeAt(rest, k - 1);
      EncodeAtNext(head, tail, bytes, k);
    } else {
      assert (head + tail)[..4] == head;
    }
  }

  /** The text of non-empty bytes is the characters of the first chunk, then the
      text of the rest. */
  lemma EncodeCons(bytes: seq<byte>)
    requires bytes != []
    ensures var m := if |bytes| < 3 then |bytes| else 3;
            Encode(bytes) == EncodeChunk(bytes[..m]) + Encode(bytes[m..])
  {
  }

  /** The step of `EncodeAt`: chunk k of the bytes is chunk k - 1 of the rest. */
  lemma EncodeAtNext(head: string, tail: string, bytes: seq<byte>, k: nat)
    requires 3 * k < |bytes| && 0 < k && |head| == 4
    requires 4 * (k - 1) + 4 <= |tail|
    requires tail[4 * (k - 1) .. 4 * (k - 1) + 4] == EncodeChunk(ChunkAt(bytes[3..], k - 1))
    ensures 4 * k + 4 <= |head + tail|
    ensures (head + tail)[4 * k .. 4 * k + 4] == EncodeChunk(ChunkAt(bytes, k))
  {
    SliceAfter(head, tail, 4 * k, 4 * k + 4);
    ChunkAtRest(bytes, k);
  }

  /** Chunk k of the bytes is chunk k - 1 of the bytes after the first three. */
  lemma ChunkAtRest(bytes: seq<byte>, k: nat)
    requires 3 * k < |bytes| && 0 < k
    ensures ChunkAt(bytes[3..], k - 1) == ChunkAt(bytes, k)
  {
    var e := if |bytes| < 3 * k + 3 then |bytes| else 3 * k + 3;
    var rest := bytes[3..];
    assert ChunkAt(rest, k - 1) == rest[3 * k - 3 .. e - 3];
    forall t | 0 <= t < e - 3 * k
      ensures rest[3 * k - 3 .. e - 3][t] == bytes[3 * k .. e][t]
    {
    }
  }

  lemma SliceAfter(head: string, tail: string, i: nat, j: nat)
    requires |head| <= i <= j <= |head| + |tail|
    ensures (head + tail)[i..j] == tail[i - |head| .. j - |head|]
  {
  }

  /*---- Decoding, the inverse ----*/

  /** The index of a character, 0 for padding. */
  function SextetValue(c: char): (r: nat)
    ensures r < 64
  {
    match SextetOf(c)
    case Some(v) => if v < 64 then v else 0
    case None => 0
  }

  /** The 24-bit value of four characters, 6 bits each from the most significant end. */
  function GroupValue(g: string): (v: nat)
    requires |g| == 4
    ensures v < 16777216
  {
    SextetValue(g[0]) * 262144 + SextetValue(g[1]) * 4096 + SextetValue(g[2]) * 64 + SextetValue(g[3])
  }

  /** How many bytes four characters hold: one when the third is `=`, two when only
      the fourth is, three otherwise. */
  function GroupLength(g: string): nat
    requires |g| == 4
  {
    if g[2] == '=' then 1 else if g[3] == '=' then 2 else 3
  }

  /** The three bytes of a 24-bit value, most significant first. */
  function ValueBytes(v: nat): (r: seq<byte>)
    requires v < 16777216
    ensures |r| == 3
  {
    [v / 65536, v / 256 % 256, v % 256]
  }

  function DecodeGroup(g: string): (r: seq<byte>)
    requires |g| == 4
  {
    ValueBytes(GroupValue(g))[..GroupLength(g)]
  }

  /** The bytes of a base64 text, four characters at a time. */
  function Decode(s: string): seq<byte>
    decreases |s|
  {
    if |s| < 4 then [] else DecodeGroup(s[..4]) + Decode(s[4..])
  }

  /** Three bytes from their 24-bit value. */
  lemma BytesOfValue(b0: byte, b1: byte, b2: byte)
    ensures Value24(b0, b1, b2) < 16777216
    ensures ValueBytes(Value24(b0, b1, b2)) == [b0, b1, b2]
  {
    var v := Value24(b0, b1, b2);
    var high := b0 as int * 256 + b1 as int;
    DivUnique(v, 65536, b0, b1 as int * 256 + b2);
    DivUnique(v, 256, high, b2);
    DivUnique(high, 256, b0, b1);
  }

  /** The groups of a chunk: those of its zero-filled buffer. */
  function ChunkSextets(chunk: seq<byte>): (r: seq<nat>)
    requires |chunk| <= 3
    ensures |r| == 4
  {
    var buf := Buffer(chunk);
    Sextets(buf[0], buf[1], buf[2])
  }

  /** The groups a padding character stands for are zero. */
  lemma PaddedSextets(chunk: seq<byte>)
    requires 1 <= |chunk| <= 3
    ensures |chunk| <= 1 ==> ChunkSextets(chunk)[2] == 0
    ensures |chunk| <= 2 ==> ChunkSextets(chunk)[3] == 0
  {
    var buf := Buffer(chunk);
    assert |chunk| <= 2 ==> buf[2] == 0;
    assert |chunk| <= 1 ==> buf[1] == 0;
  }

  /** Character j of a chunk's text stands for group j of the chunk. */
  lemma ChunkCharValue(chunk: seq<byte>, j: nat)
    requires 1 <= |chunk| <= 3 && j < 4
    ensures SextetValue(EncodeChunk(chunk)[j]) == ChunkSextets(chunk)[j]
  {
    var s := ChunkSextets(chunk);
    var g := EncodeChunk(chunk);
    EncodeChunkDef(chunk);
    SextetOfAlphabet();
    if j <= |chunk| {
      if j == 0 {
        assert g[0] == Symbol(s[0]);
      } else if j == 1 {
        assert g[1] == Symbol(s[1]);
      } else if j == 2 {
        assert g[2] == Symbol(s[2]);
      } else {
        assert g[3] == Symbol(s[3]);
      }
      SymbolDef(s[j]);
    } else {
      assert g[j] == '=';
      PaddedSextets(chunk);
    }
  }

  /** The characters of a chunk carry the 24-bit value of its buffer: padding stands
      for groups that are zero. */
  lemma ChunkGroupValue(chunk: seq<byte>)
    requires 1 <= |chunk| <= 3
    ensures var buf := Buffer(chunk);
            GroupValue(EncodeChunk(chunk)) == Value24(buf[0], buf[1], buf[2])
  {
    var buf := Buffer(chunk);
    ChunkCharValue(chunk, 0);
    ChunkCharValue(chunk, 1);
    ChunkCharValue(chunk, 2);
    ChunkCharValue(chunk, 3);
    SextetsBigEndian(buf[0], buf[1], buf[2]);
  }

  /** The padding of a chunk's characters gives back the chunk's length. */
  lemma ChunkGroupLength(chunk: seq<byte>)
    requires 1 <= |chunk| <= 3
    ensures GroupLength(EncodeChunk(chunk)) == |chunk|
  {
    var buf := Buffer(chunk);
    var s := Sextets(buf[0], buf[1], buf[2]);
    EncodeChunkDef(chunk);
    SextetOfAlphabet();
    SymbolDef(s[2]);
    SymbolDef(s[3]);
  }

  /** Decoding one chunk's characters gives the chunk back. */
  lemma DecodeChunk(chunk: seq<byte>)
    requires 1 <= |chunk| <= 3
    ensures DecodeGroup(EncodeChunk(chunk)) == chunk
  {
    var buf := Buffer(chunk);
    ChunkGroupValue(chunk);
    ChunkGroupLength(chunk);
    BytesOfValue(buf[0], buf[1], buf[2]);
    assert [buf[0], buf[1], buf[2]] == buf;
  }

  /** Decoding the text gives the bytes back: the encoding loses nothing. */
  lemma {:induction false} DecodeEncode(bytes: seq<byte>)
    ensures Decode(Encode(bytes)) == bytes
    decreases |bytes|
  {
    if bytes != [] {
      var k := if |bytes| < 3 then |bytes| else 3;
      var head := EncodeChunk(bytes[..k]);
      var tail := Encode(bytes[k..]);
      assert Encode(bytes) == head + tail;
      var e := head + tail;
      assert e[..4] == head;
      assert e[4..] == tail;
      assert Decode(e) == DecodeGroup(head) + Decode(tail);
      DecodeChunk(bytes[..k]);
      DecodeEncode(bytes[k..]);
      assert bytes == bytes[..k] + bytes[k..];
    }
  }
}
