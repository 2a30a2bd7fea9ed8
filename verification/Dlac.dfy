/** The two unpackers of DLAC text, uatparse/uatparse.go and dump978/uat_decode.c.
    Every | in them joins operands that have no bit in common, and is written +. */
module Dlac {
  import opened Bits
  import opened Collections

  // ----- The packed text as a bit stream -----

  // Bit t of the stream: the high bit of a byte comes first.
  function Bit(data: seq<nat>, t: nat): nat
    requires t < 8 * |data|
  {
    (data[t / 8] / Pow2(7 - t % 8)) % 2
  }

  // The number that six consecutive bits make.
  function SixBits(data: seq<nat>, t: nat): nat
    requires t + 6 <= 8 * |data|
  {
    32 * Bit(data, t) + 16 * Bit(data, t + 1) + 8 * Bit(data, t + 2)
    + 4 * Bit(data, t + 3) + 2 * Bit(data, t + 4) + Bit(data, t + 5)
  }

  // All the complete groups of six.
  ghost function Codes(data: seq<nat>): seq<nat> {
    seq(4 * |data| / 3, k requires 0 <= k < 4 * |data| / 3 => SixBits(data, 6 * k))
  }

  lemma BitAt(data: seq<nat>, i: nat, j: nat)
    requires i < |data| && j < 8
    ensures Bit(data, 8 * i + j) == (data[i] / Pow2(7 - j)) % 2
  {
    hide Pow2;
    DivModUnique(8 * i + j, 8, i, j);
  }

  lemma EightBits(data: seq<nat>, i: nat)
    requires i < |data|
    ensures Bit(data, 8 * i) == (data[i] / 128) % 2
    ensures Bit(data, 8 * i + 1) == (data[i] / 64) % 2
    ensures Bit(data, 8 * i + 2) == (data[i] / 32) % 2
    ensures Bit(data, 8 * i + 3) == (data[i] / 16) % 2
    ensures Bit(data, 8 * i + 4) == (data[i] / 8) % 2
    ensures Bit(data, 8 * i + 5) == (data[i] / 4) % 2
    ensures Bit(data, 8 * i + 6) == (data[i] / 2) % 2
    ensures Bit(data, 8 * i + 7) == data[i] % 2
  {
    hide Bit;
    BitAt(data, i, 0);
    BitAt(data, i, 1);
    BitAt(data, i, 2);
    BitAt(data, i, 3);
    BitAt(data, i, 4);
    BitAt(data, i, 5);
    BitAt(data, i, 6);
    BitAt(data, i, 7);
    assert Pow2(3) == 8 && Pow2(7) == 16 * Pow2(3);
  }

  lemma Halved(b: nat, d: nat)
    requires d > 0
    ensures b / d == 2 * (b / (2 * d)) + (b / d) % 2
  {
    var q, m := b / d, b % d;
    var h, r := q / 2, q % 2;
    HalvedProduct(h, r, d);
    DivModUnique(b, 2 * d, h, r * d + m);
  }

  lemma HalvedProduct(h: int, r: int, d: int)
    requires 0 <= r < 2 && d > 0
    ensures (2 * h + r) * d == h * (2 * d) + r * d && 0 <= r * d <= d
  {
  }

  lemma HighBits(b: nat)
    requires b < 256
    ensures b / 64 == 2 * ((b / 128) % 2) + (b / 64) % 2
    ensures b / 16 == 8 * ((b / 128) % 2) + 4 * ((b / 64) % 2) + 2 * ((b / 32) % 2) + (b / 16) % 2
    ensures b / 4 == 32 * ((b / 128) % 2) + 16 * ((b / 64) % 2) + 8 * ((b / 32) % 2)
                   + 4 * ((b / 16) % 2) + 2 * ((b / 8) % 2) + (b / 4) % 2
  {
    Halved(b, 128);
    Halved(b, 64);
    Halved(b, 32);
    Halved(b, 16);
    Halved(b, 8);
    Halved(b, 4);
  }

  lemma LowBits(b: nat)
    ensures b % 4 == 2 * ((b / 2) % 2) + b % 2
    ensures b % 16 == 8 * ((b / 8) % 2) + 4 * ((b / 4) % 2) + 2 * ((b / 2) % 2) + b % 2
    ensures b % 64 == 32 * ((b / 32) % 2) + 16 * ((b / 16) % 2) + 8 * ((b / 8) % 2)
                    + 4 * ((b / 4) % 2) + 2 * ((b / 2) % 2) + b % 2
  {
    Halved(b, 32);
    Halved(b, 16);
    Halved(b, 8);
    Halved(b, 4);
    Halved(b, 2);
    var b0, b1, b2, b3, b4, b5 := b % 2, (b / 2) % 2, (b / 4) % 2, (b / 8) % 2, (b / 16) % 2, (b / 32) % 2;
    DivModUnique(b, 4, b / 4, 2 * b1 + b0);
    DivModUnique(b, 16, b / 16, 8 * b3 + 4 * b2 + 2 * b1 + b0);
    DivModUnique(b, 64, b / 64, 32 * b5 + 16 * b4 + 8 * b3 + 4 * b2 + 2 * b1 + b0);
  }

  // ----- The four cases of the switch -----

  // Where the read position is before code k: step 2 does not move it.
  function Place(k: nat): nat {
    3 * (k / 4) + if k % 4 == 3 then 2 else k % 4
  }

  lemma PlaceStep(k: nat)
    ensures Place(k + 1) == if k % 4 == 2 then Place(k) else Place(k) + 1
    ensures k % 4 == 1 || k % 4 == 2 ==> Place(k) > 0
    ensures (k + 1) % 4 == (k % 4 + 1) % 4
  {
    var q, r := k / 4, k % 4;
    if r == 3 {
      DivModUnique(k + 1, 4, q + 1, 0);
    } else {
      DivModUnique(k + 1, 4, q, r + 1);
    }
  }

  lemma StartPlace()
    ensures Place(0) == 0
  {
  }

  // What the case for this step computes.
  function Extract(data: seq<nat>, at: nat, step: nat): nat
    requires at < |data| && step < 4 && (step == 1 || step == 2 ==> at > 0)
  {
    if step == 0 then data[at] / 4
    else if step == 1 then (data[at - 1] % 4) * 16 + data[at] / 16
    else if step == 2 then (data[at - 1] % 16) * 4 + data[at] / 64
    else data[at] % 64
  }

  lemma OneByteCodes(data: seq<nat>, at: nat)
    requires AllBytes(data) && at < |data|
    ensures SixBits(data, 8 * at) == data[at] / 4
    ensures SixBits(data, 8 * at + 2) == data[at] % 64
  {
    hide Bit;
    EightBits(data, at);
    HighBits(data[at]);
    LowBits(data[at]);
  }

  lemma TwoByteCodes(data: seq<nat>, at: nat)
    requires AllBytes(data) && 0 < at < |data|
    ensures SixBits(data, 8 * at - 2) == (data[at - 1] % 4) * 16 + data[at] / 16
    ensures SixBits(data, 8 * at - 4) == (data[at - 1] % 16) * 4 + data[at] / 64
  {
    hide Bit, SixBits;
    var t := 8 * (at - 1);
    EightBits(data, at - 1);
    EightBits(data, at);
    SixBitsAre(data, t + 6);
    SixBitsAre(data, t + 4);
    var a, b := data[at - 1], data[at];
    LowBits(a);
    HighBits(b);
  }

  lemma SixBitsAre(data: seq<nat>, t: nat)
    requires t + 6 <= 8 * |data|
    ensures SixBits(data, t) == 32 * Bit(data, t) + 16 * Bit(data, t + 1) + 8 * Bit(data, t + 2)
                              + 4 * Bit(data, t + 3) + 2 * Bit(data, t + 4) + Bit(data, t + 5)
  {
  }

  lemma ExtractIsCode(data: seq<nat>, k: nat)
    requires AllBytes(data) && Place(k) < |data|
    ensures 6 * k + 6 <= 8 * |data| && k < 4 * |data| / 3
    ensures Extract(data, Place(k), k % 4) == SixBits(data, 6 * k)
  {
    hide SixBits;
    var q, r, at := k / 4, k % 4, Place(k);
    assert 6 * k == 24 * q + 6 * r;
    OneByteCodes(data, at);
    if at > 0 {
      TwoByteCodes(data, at);
    }
  }

  // The codes that have been read when the position reaches the end are all of them.
  lemma AllCodesRead(n: nat, k: nat)
    requires Place(k) == n && (k == 0 || Place(k - 1) < n)
    ensures k == 4 * n / 3
  {
  }

  // ----- Expanding the codes -----

  const CONTROLS: string := "\U{1A}\t\U{1E}\n|"
  const SIGNS: string := " !\"#$%&'()*+,-./0123456789:;<=>?"
  const ALPHABET: string := "\U{3}" + "ABCDEFGHIJKLM" + "NOPQRSTUVWXYZ" + CONTROLS + SIGNS

  const TAB := 28

  function Spaces(n: nat): string {
    if n == 0 then "" else Spaces(n - 1) + [' ']
  }

  datatype Output = Output(text: string, tab: bool)

  // A tab code makes the next code a number of spaces.
  function Expand(codes: seq<nat>): Output
    requires forall i :: 0 <= i < |codes| ==> codes[i] < |ALPHABET|
  {
    if codes == [] then Output("", false)
    else Expanded(Expand(codes[..|codes| - 1]), codes[|codes| - 1])
  }

  function Expanded(before: Output, ch: nat): Output
    requires ch < |ALPHABET|
  {
    if before.tab then Output(before.text + Spaces(ch), false)
    else if ch == TAB then Output(before.text, true)
    else Output(before.text + [ALPHABET[ch]], false)
  }

  lemma {:induction false} SixBitsBound(data: seq<nat>, t: nat)
    requires t + 6 <= 8 * |data|
    ensures SixBits(data, t) < 64
  {
  }

  lemma AlphabetSize()
    ensures |ALPHABET| == 64
  {
  }

  // Letters come first, and from 32 up a code is the character it numbers.
  lemma {:induction false} AlphabetIs(code: nat)
    requires code < 64
    ensures |ALPHABET| == 64
    ensures code == 0 ==> ALPHABET[code] == '\U{3}'
    ensures 1 <= code <= 26 ==> ALPHABET[code] == (code + 64) as char
    ensures code == 27 ==> ALPHABET[code] == '\U{1A}'
    ensures code == TAB ==> ALPHABET[code] == '\t'
    ensures code == 29 ==> ALPHABET[code] == '\U{1E}'
    ensures code == 30 ==> ALPHABET[code] == '\n'
    ensures code == 31 ==> ALPHABET[code] == '|'
    ensures code >= 32 ==> ALPHABET[code] == code as char
  {
    var first, second := "ABCDEFGHIJKLM", "NOPQRSTUVWXYZ";
    assert forall i :: 0 <= i < 13 ==> first[i] == (i + 65) as char;
    assert forall i :: 0 <= i < 13 ==> second[i] == (i + 78) as char;
    assert forall i :: 0 <= i < 32 ==> SIGNS[i] == (i + 32) as char;
  }

  ghost function Text(data: seq<nat>, k: nat): Output
    requires k <= 4 * |data| / 3
  {
    if k == 0 then Output("", false)
    else
      SixBitsBound(data, 6 * (k - 1));
      AlphabetSize();
      Expanded(Text(data, k - 1), SixBits(data, 6 * (k - 1)))
  }

  lemma TextStep(data: seq<nat>, k: nat)
    requires k < 4 * |data| / 3
    ensures SixBits(data, 6 * k) < |ALPHABET|
    ensures Text(data, k + 1) == Expanded(Text(data, k), SixBits(data, 6 * k))
  {
    hide SixBits;
    SixBitsBound(data, 6 * k);
    AlphabetSize();
  }

  lemma NoText(data: seq<nat>)
    ensures Text(data, 0) == Output("", false)
  {
  }

  // What both unpackers return.
  ghost function Decoded(data: seq<nat>): string {
    Text(data, 4 * |data| / 3).text
  }

  // It is the expansion of the stream's codes.
  lemma {:induction false} TextExpandsCodes(data: seq<nat>, k: nat)
    requires k <= 4 * |data| / 3
    ensures forall i :: 0 <= i < k ==> Codes(data)[i] < |ALPHABET|
    ensures Text(data, k) == Expand(Codes(data)[..k])
  {
    hide SixBits, Expanded;
    AlphabetSize();
    var codes := Codes(data);
    forall i | 0 <= i < k ensures codes[i] < |ALPHABET| {
      SixBitsBound(data, 6 * i);
    }
    if k > 0 {
      TextExpandsCodes(data, k - 1);
      assert codes[..k][..k - 1] == codes[..k - 1];
    }
  }

  // ----- Texts that are packed come back -----

  predicate AllCodes(codes: seq<nat>) {
    forall i :: 0 <= i < |codes| ==> codes[i] < 64
  }

  // What a writer puts into a text: a character, or a tab over so many columns.
  datatype Token = Char(c: char) | Tab(n: nat)

  // The characters that have a code of their own.
  predicate Encodable(c: char) {
    c in "\U{3}\U{1A}\U{1E}\n|" || 'A' <= c <= 'Z' || ' ' <= c <= '?'
  }

  predicate ValidToken(t: Token) {
    match t
    case Char(c) => Encodable(c)
    case Tab(n) => n < 64
  }

  function TokenCodes(t: Token): (codes: seq<nat>)
    requires ValidToken(t)
    ensures AllCodes(codes)
  {
    match t
    case Char(c) =>
      if ' ' <= c <= '?' then [c as nat]
      else if 'A' <= c <= 'Z' then [c as nat - 64]
      else if c == '\U{3}' then [0]
      else if c == '\U{1A}' then [27]
      else if c == '\U{1E}' then [29]
      else if c == '\n' then [30]
      else [31]
    case Tab(n) => [TAB, n]
  }

  function TokenText(t: Token): string {
    match t
    case Char(c) => [c]
    case Tab(n) => seq(n, i => ' ')
  }

  predicate ValidTokens(ts: seq<Token>) {
    forall i :: 0 <= i < |ts| ==> ValidToken(ts[i])
  }

  function Encode(ts: seq<Token>): (codes: seq<nat>)
    requires ValidTokens(ts)
    ensures AllCodes(codes)
  {
    if ts == [] then [] else Encode(ts[..|ts| - 1]) + TokenCodes(ts[|ts| - 1])
  }

  function Written(ts: seq<Token>): string {
    if ts == [] then "" else Written(ts[..|ts| - 1]) + TokenText(ts[|ts| - 1])
  }

  lemma {:induction false} SpacesAre(n: nat)
    ensures Spaces(n) == seq(n, i => ' ')
  {
    if n > 0 {
      SpacesAre(n - 1);
      assert seq(n, i => ' ') == seq(n - 1, i => ' ') + [' '];
    }
  }

  lemma CharExpands(before: string, c: char)
    requires Encodable(c)
    ensures |TokenCodes(Char(c))| == 1 && TokenCodes(Char(c))[0] < |ALPHABET|
    ensures Expanded(Output(before, false), TokenCodes(Char(c))[0]) == Output(before + [c], false)
  {
    AlphabetIs(TokenCodes(Char(c))[0]);
  }

  lemma ExpandStep(codes: seq<nat>, code: nat)
    requires AllCodes(codes) && code < 64
    ensures |ALPHABET| == 64 && Expand(codes + [code]) == Expanded(Expand(codes), code)
  {
    hide Expanded;
    AlphabetSize();
    assert (codes + [code])[..|codes|] == codes;
  }

  lemma {:induction false} TokensExpand(ts: seq<Token>)
    requires ValidTokens(ts)
    ensures |ALPHABET| == 64 && Expand(Encode(ts)) == Output(Written(ts), false)
  {
    hide Encodable, Spaces;
    AlphabetSize();
    if ts != [] {
      var before, t := ts[..|ts| - 1], ts[|ts| - 1];
      var codes := Encode(before);
      TokensExpand(before);
      match t {
        case Char(c) =>
          CharExpands(Written(before), c);
          ExpandStep(codes, TokenCodes(t)[0]);
          assert TokenCodes(t) == [TokenCodes(t)[0]];
        case Tab(n) =>
          ExpandStep(codes, TAB);
          ExpandStep(codes + [TAB], n);
          SpacesAre(n);
          assert codes + [TAB, n] == codes + [TAB] + [n];
      }
    }
  }

  function CodeAt(codes: seq<nat>, k: nat): nat {
    if k < |codes| then codes[k] else 0
  }

  // Four codes make three bytes, with zero bits behind the last code.
  function PackedByte(codes: seq<nat>, i: nat): nat {
    var k := 4 * (i / 3);
    if i % 3 == 0 then CodeAt(codes, k) * 4 + CodeAt(codes, k + 1) / 16
    else if i % 3 == 1 then CodeAt(codes, k + 1) % 16 * 16 + CodeAt(codes, k + 2) / 4
    else CodeAt(codes, k + 2) % 4 * 64 + CodeAt(codes, k + 3)
  }

  function Pack(codes: seq<nat>): seq<nat> {
    seq((3 * |codes| + 3) / 4, i requires 0 <= i => PackedByte(codes, i))
  }

  lemma SplitCode(a: nat, b: nat)
    requires a < 64 && b < 64
    ensures (a * 4 + b / 16) / 4 == a && (a * 4 + b / 16) % 4 == b / 16
    ensures (a % 16 * 16 + b / 4) / 16 == a % 16 && (a % 16 * 16 + b / 4) % 16 == b / 4
    ensures (a % 4 * 64 + b) / 64 == a % 4 && (a % 4 * 64 + b) % 64 == b
    ensures a / 16 * 16 + a % 16 == a && a / 4 * 4 + a % 4 == a
    ensures a * 4 + b / 16 < 256 && a % 16 * 16 + b / 4 < 256 && a % 4 * 64 + b < 256
  {
  }

  lemma PackedBytes(codes: seq<nat>, i: nat, q: nat)
    requires AllCodes(codes) && q == i / 3
    ensures PackedByte(codes, i) < 256
    ensures i % 3 == 0 ==> PackedByte(codes, i) / 4 == CodeAt(codes, 4 * q)
    ensures i % 3 == 0 ==> PackedByte(codes, i) % 4 == CodeAt(codes, 4 * q + 1) / 16
    ensures i % 3 == 1 ==> PackedByte(codes, i) / 16 == CodeAt(codes, 4 * q + 1) % 16
    ensures i % 3 == 1 ==> PackedByte(codes, i) % 16 == CodeAt(codes, 4 * q + 2) / 4
    ensures i % 3 == 2 ==> PackedByte(codes, i) / 64 == CodeAt(codes, 4 * q + 2) % 4
    ensures i % 3 == 2 ==> PackedByte(codes, i) % 64 == CodeAt(codes, 4 * q + 3)
  {
    SplitCode(CodeAt(codes, 4 * q), CodeAt(codes, 4 * q + 1));
    SplitCode(CodeAt(codes, 4 * q + 1), CodeAt(codes, 4 * q + 2));
    SplitCode(CodeAt(codes, 4 * q + 2), CodeAt(codes, 4 * q + 3));
  }

  lemma CodeHalves(code: nat)
    ensures code / 16 * 16 + code % 16 == code && code / 4 * 4 + code % 4 == code
  {
  }

  // Each code is found where the switch reads it.
  lemma PackedExtract(codes: seq<nat>, k: nat)
    requires AllCodes(codes) && Place(k) < |Pack(codes)|
    ensures k % 4 == 1 || k % 4 == 2 ==> Place(k) > 0
    ensures Extract(Pack(codes), Place(k), k % 4) == CodeAt(codes, k)
  {
    hide CodeAt, PackedByte, AllCodes;
    var q, r, at := k / 4, k % 4, Place(k);
    DivModUnique(at, 3, q, if r == 3 then 2 else r);
    PackedBytes(codes, at, q);
    CodeHalves(CodeAt(codes, k));
    if r == 1 || r == 2 {
      DivModUnique(at - 1, 3, q, r - 1);
      PackedBytes(codes, at - 1, q);
    }
  }

  lemma PackedCount(k: nat)
    ensures 4 * ((3 * k + 3) / 4) / 3 == if k % 4 == 3 then k + 1 else k
  {
    var q, r := k / 4, k % 4;
    DivModUnique(3 * k + 3, 4, 3 * q + (if r == 3 then 3 else r), if r == 3 then 0 else 3 - r);
  }

  // Codes come back from the bytes they are packed in, and with them a code of
  // zero if three are left over: its six bits fill the last byte.
  lemma CodesOfPack(codes: seq<nat>)
    requires AllCodes(codes)
    ensures AllBytes(Pack(codes))
    ensures Codes(Pack(codes)) == codes + if |codes| % 4 == 3 then [0] else []
  {
    hide SixBits, Extract, Place, PackedByte;
    var data := Pack(codes);
    forall i | 0 <= i < |data| ensures data[i] < 256 {
      PackedBytes(codes, i, i / 3);
    }
    PackedCount(|codes|);
    forall k: nat | k < 4 * |data| / 3 ensures Codes(data)[k] == CodeAt(codes, k) {
      PlaceBound(|data|, k);
      ExtractIsCode(data, k);
      PackedExtract(codes, k);
    }
  }

  // Every text of characters and tabs is decoded as it was written, with a 0x03
  // behind it exactly when the last three bytes hold only three codes of it.
  lemma TextRoundTrip(ts: seq<Token>)
    requires ValidTokens(ts)
    ensures AllBytes(Pack(Encode(ts)))
    ensures Decoded(Pack(Encode(ts))) == Written(ts) + if |Encode(ts)| % 4 == 3 then [END] else []
  {
    hide Pack, Encode, Written, SixBits, Expand;
    var codes := Encode(ts);
    var data := Pack(codes);
    CodesOfPack(codes);
    TokensExpand(ts);
    TextExpandsCodes(data, 4 * |data| / 3);
    assert Codes(data)[..4 * |data| / 3] == Codes(data);
    if |codes| % 4 == 3 {
      ExpandStep(codes, 0);
      AlphabetIs(0);
    } else {
      assert codes + [] == codes;
      assert Written(ts) + [] == Written(ts);
    }
  }

  // ----- The C unpacker and its buffer -----

  const BUFFER := 1024

  // The buffer holds the text as far as it goes.
  ghost predicate Holds(buf: seq<char>, text: string) {
    forall i :: 0 <= i < |text| && i < |buf| ==> buf[i] == text[i]
  }

  // *p++ = c, behind this text. The write that C leaves undefined, behind the
  // end of the buffer, is not made.
  method Append(buf: array<char>, p: nat, c: char, ghost text: string) returns (q: nat)
    requires p == |text| && Holds(buf[..], text)
    modifies buf
    ensures q == p + 1 && Holds(buf[..], text + [c])
  {
    if p < buf.Length {
      buf[p] := c;
    }
    q := p + 1;
  }

  method AppendCode(buf: array<char>, start: nat, tabBefore: bool, code: nat, ghost before: string)
    returns (p: nat, tab: bool)
    requires code < |ALPHABET| && start == |before| && Holds(buf[..], before)
    modifies buf
    ensures var out := Expanded(Output(before, tabBefore), code);
            p == |out.text| && tab == out.tab && Holds(buf[..], out.text)
  {
    p, tab := start, tabBefore;
    if tab {
      var ch: nat := code;
      assert Spaces(0) == "" && before + "" == before;
      while ch > 0
        invariant ch <= code && p == |before + Spaces(code - ch)| && Holds(buf[..], before + Spaces(code - ch))
      {
        p := Append(buf, p, ' ', before + Spaces(code - ch));
        assert before + Spaces(code - ch) + [' '] == before + Spaces(code - (ch - 1));
        ch := ch - 1;
      }
      tab := false;
    } else if code == TAB {
      tab := true;
    } else {
      p := Append(buf, p, ALPHABET[code], before);
    }
  }

  // dump978/uat_decode.c. p is where the final NUL goes, and overrun says whether
  // that is behind the end of the buffer.
  method DecodeDlac(data: array<nat>, bytelen: nat, buf: array<char>) returns (p: nat, overrun: bool)
    requires bytelen <= data.Length && AllBytes(data[..]) && buf.Length == BUFFER
    modifies buf
    ensures p == |Decoded(data[..bytelen])| && Holds(buf[..], Decoded(data[..bytelen]))
    ensures overrun <==> p >= BUFFER
    ensures !overrun ==> buf[..p] == Decoded(data[..bytelen]) && buf[p] == '\0'
  {
    hide SixBits, Expanded, Spaces, Text, Place;
    StartPlace();
    ghost var d := data[..bytelen];
    ghost var k := 0;
    ghost var text := "";
    NoText(d);
    p := 0;
    var at, step, tab := 0, 0, false;
    while at < bytelen
      invariant step == k % 4 && at == Place(k) && at <= bytelen && (k == 0 || Place(k - 1) < bytelen)
      invariant k <= 4 * bytelen / 3 && Text(d, k) == Output(text, tab)
      invariant p == |text| && Holds(buf[..], text)
      decreases bytelen - at, 3 - step
    {
      ExtractIsCode(d, k);
      TextStep(d, k);
      PlaceStep(k);
      var ch;
      if step == 0 {
        ch := data[at] / 4;
        at := at + 1;
      } else if step == 1 {
        ch := (data[at - 1] % 4) * 16 + data[at] / 16;
        at := at + 1;
      } else if step == 2 {
        ch := (data[at - 1] % 16) * 4 + data[at] / 64;
      } else {
        ch := data[at] % 64;
        at := at + 1;
      }
      assert ch == SixBits(d, 6 * k);
      ghost var out := Expanded(Output(text, tab), ch);
      p, tab := AppendCode(buf, p, tab, ch, text);
      text := out.text;
      step := (step + 1) % 4;
      k := k + 1;
    }
    AllCodesRead(bytelen, k);
    overrun := p >= buf.Length;
    if !overrun {
      buf[p] := '\0';
    }
  }

  // The longest text that k codes can make: every second one a tab, and as many
  // spaces as there can be after each.
  function Longest(k: nat): nat {
    63 * (k / 2) + k % 2
  }

  lemma {:induction false} SpacesLength(n: nat)
    ensures |Spaces(n)| == n
  {
    if n > 0 {
      SpacesLength(n - 1);
    }
  }

  lemma LongestStep(k: nat)
    ensures Longest(k + 2) == Longest(k) + 63
    ensures Longest(k) + 1 <= Longest(k + 1)
  {
  }

  lemma {:induction false} TextBound(data: seq<nat>, k: nat)
    requires k <= 4 * |data| / 3
    ensures |Text(data, k).text| <= Longest(k)
    ensures Text(data, k).tab ==> k > 0 && |Text(data, k).text| <= Longest(k - 1)
  {
    hide SixBits, Longest, Text, Spaces;
    NoText(data);
    if k > 0 {
      var j := k - 1;
      TextBound(data, j);
      TextStep(data, j);
      AlphabetSize();
      SpacesLength(SixBits(data, 6 * j));
      LongestStep(j);
      if Text(data, j).tab {
        LongestStep(j - 1);
      }
    }
  }

  // Tab and 63 spaces, tab and 63 spaces, and so on.
  function Tabs(n: nat): (data: seq<nat>)
    ensures |data| == n
    ensures forall i :: 0 <= i < n ==> data[i] == if i % 3 == 0 then 0x73 else if i % 3 == 1 then 0xF7 else 0x3F
  {
    seq(n, i => if i % 3 == 0 then 0x73 else if i % 3 == 1 then 0xF7 else 0x3F)
  }

  lemma PlaceBound(n: nat, k: nat)
    requires k < 4 * n / 3
    ensures Place(k) < n && Place(k) % 3 == if k % 4 == 3 then 2 else k % 4
  {
    var q, r := k / 4, k % 4;
    DivModUnique(Place(k), 3, q, if r == 3 then 2 else r);
  }

  // The four cases of the switch, on these bytes.
  lemma TabsExtract(data: seq<nat>, at: nat, step: nat)
    requires at < |data| && step < 4 && (step == 1 || step == 2 ==> at > 0)
    requires data[at] == if step == 0 then 0x73 else if step == 1 then 0xF7 else 0x3F
    requires step == 1 ==> data[at - 1] == 0x73
    requires step == 2 ==> data[at - 1] == 0xF7
    ensures Extract(data, at, step) == if step % 2 == 0 then 28 else 63
  {
  }

  lemma TabsAt(n: nat, at: nat, step: nat)
    requires at < n && step < 4 && at % 3 == (if step == 3 then 2 else step) && (step == 1 || step == 2 ==> at > 0)
    ensures Extract(Tabs(n), at, step) == if step % 2 == 0 then 28 else 63
  {
    hide Tabs, Extract;
    if step == 1 || step == 2 {
      DivModUnique(at - 1, 3, at / 3, step - 1);
    }
    TabsExtract(Tabs(n), at, step);
  }

  lemma StepParity(k: nat)
    ensures (k % 4) % 2 == k % 2
  {
    DivModUnique(k, 2, 2 * (k / 4) + (k % 4) / 2, (k % 4) % 2);
  }

  lemma TabsCode(n: nat, k: nat)
    requires k < 4 * n / 3
    ensures 6 * k + 6 <= 8 * n
    ensures SixBits(Tabs(n), 6 * k) == if k % 2 == 0 then 28 else 63
  {
    hide SixBits, Place, Tabs, Extract;
    PlaceBound(n, k);
    PlaceStep(k);
    ExtractIsCode(Tabs(n), k);
    TabsAt(n, Place(k), k % 4);
    StepParity(k);
  }

  lemma {:induction false} TabsText(n: nat, k: nat)
    requires k <= 4 * n / 3
    ensures |Text(Tabs(n), k).text| == 63 * (k / 2) && Text(Tabs(n), k).tab == (k % 2 == 1)
  {
    hide SixBits, Text, Tabs, Spaces;
    NoText(Tabs(n));
    if k > 0 {
      TabsText(n, k - 1);
      TextStep(Tabs(n), k - 1);
      TabsCode(n, k - 1);
      SpacesLength(63);
    }
  }

  ghost predicate Fits(data: seq<nat>) {
    |Decoded(data)| < BUFFER
  }

  // Every text of up to 25 bytes fits the buffer; of each greater length there is
  // one that does not.
  lemma AlwaysFitsIff(n: nat)
    ensures (forall data: seq<nat> :: AllBytes(data) && |data| == n ==> Fits(data)) <==> n <= 25
    ensures n > 25 ==> AllBytes(Tabs(n)) && !Fits(Tabs(n))
  {
    hide Text;
    if n <= 25 {
      forall data: seq<nat> | AllBytes(data) && |data| == n ensures Fits(data) {
        TextBound(data, 4 * n / 3);
      }
    } else {
      TabsText(n, 4 * n / 3);
      assert 4 * n / 3 >= 34;
    }
  }

  // uatparse/uatparse.go: the loop counter is stepped back where the C pointer
  // stays put.
  method DlacDecode(data: seq<nat>, dataLen: nat) returns (ret: string)
    requires dataLen <= |data| && AllBytes(data)
    ensures ret == Decoded(data[..dataLen])
  {
    hide SixBits, Expanded, Spaces, Text, Place;
    StartPlace();
    ghost var d := data[..dataLen];
    ghost var k := 0;
    NoText(d);
    var step, tab := 0, false;
    ret := "";
    var i := 0;
    while i < dataLen
      invariant step == k % 4 && i == Place(k) && i <= dataLen && (k == 0 || Place(k - 1) < dataLen)
      invariant k <= 4 * dataLen / 3 && Text(d, k) == Output(ret, tab)
      decreases dataLen - i, 3 - step
    {
      ExtractIsCode(d, k);
      TextStep(d, k);
      PlaceStep(k);
      var ch;
      match step {
        case 0 =>
          ch := data[i] / 4;
        case 1 =>
          ch := (data[i - 1] % 4) * 16 + data[i] / 16;
        case 2 =>
          ch := (data[i - 1] % 16) * 4 + data[i] / 64;
          i := i - 1;
        case _ =>
          ch := data[i] % 64;
      }
      assert ch == SixBits(d, 6 * k);
      ret, tab := Write(ret, tab, ch);
      step := (step + 1) % 4;
      k := k + 1;
      i := i + 1;
    }
    AllCodesRead(dataLen, k);
  }

  // What becomes of one code.
  method Write(before: string, tabBefore: bool, code: nat) returns (text: string, tab: bool)
    requires code < |ALPHABET|
    ensures Output(text, tab) == Expanded(Output(before, tabBefore), code)
  {
    text, tab := before, tabBefore;
    var ch: nat := code;
    if tab {
      assert Spaces(0) == "";
      while ch > 0
        invariant ch <= code && text == before + Spaces(code - ch)
      {
        text := text + [' '];
        ch := ch - 1;
      }
      tab := false;
    } else if ch == TAB {
      tab := true;
    } else {
      text := text + [ALPHABET[ch]];
    }
  }

  // ----- Splitting the text into records -----

  const RECORD := '\U{1E}'
  const END := '\U{3}'

  // The pieces between separators.
  function Split(s: string, sep: char): (parts: seq<string>)
    ensures |parts| > 0
  {
    if s == "" then [""]
    else
      var rest := Split(s[1..], sep);
      if s[0] == sep then [""] + rest else [[s[0]] + rest[0]] + rest[1..]
  }

  function Join(parts: seq<string>, sep: char): string
    requires |parts| > 0
  {
    if |parts| == 1 then parts[0] else parts[0] + [sep] + Join(parts[1..], sep)
  }

  // Splitting loses nothing, and leaves no separator.
  lemma {:induction false} SplitInvertsJoin(s: string, sep: char)
    ensures Join(Split(s, sep), sep) == s
    ensures forall k :: 0 <= k < |Split(s, sep)| ==> sep !in Split(s, sep)[k]
  {
    if s != "" {
      var parts, rest := Split(s, sep), Split(s[1..], sep);
      SplitInvertsJoin(s[1..], sep);
      if s[0] == sep {
        assert parts[1..] == rest;
      } else {
        assert parts[1..] == rest[1..];
        assert Join(parts, sep) == [s[0]] + Join(rest, sep);
      }
    }
  }

  lemma {:induction false} SplitAt(s: string, sep: char, i: nat)
    requires i < |s| && s[i] == sep && forall k :: 0 <= k < i ==> s[k] != sep
    ensures Split(s, sep) == [s[..i]] + Split(s[i + 1..], sep)
  {
    if i == 0 {
      assert s[..0] == "";
    } else {
      assert s[1..][..i - 1] == s[1..i] && s[1..][i..] == s[i + 1..];
      SplitAt(s[1..], sep, i - 1);
      assert [s[0]] + s[1..i] == s[..i];
    }
  }

  lemma {:induction false} SplitNone(s: string, sep: char)
    requires forall k :: 0 <= k < |s| ==> s[k] != sep
    ensures Split(s, sep) == [s]
  {
    if s != "" {
      SplitNone(s[1..], sep);
      assert [s[0]] + s[1..] == s;
    }
  }

  method Index(p: string, sep: char) returns (pos: int)
    ensures pos == -1 ==> forall k :: 0 <= k < |p| ==> p[k] != sep
    ensures pos != -1 ==> 0 <= pos < |p| && p[pos] == sep && forall k :: 0 <= k < pos ==> p[k] != sep
  {
    for i := 0 to |p|
      invariant forall k :: 0 <= k < i ==> p[k] != sep
    {
      if p[i] == sep {
        return i;
      }
    }
    return -1;
  }

  // Records are split off at 0x1E; only what follows the last 0x1E is split at 0x03.
  ghost function Records(p: string): seq<string> {
    var parts := Split(p, RECORD);
    parts[..|parts| - 1] + Split(parts[|parts| - 1], END)
  }

  lemma RecordsSplit(p: string, pos: nat)
    requires pos < |p| && p[pos] == RECORD && forall k :: 0 <= k < pos ==> p[k] != RECORD
    ensures Records(p) == [p[..pos]] + Records(p[pos + 1..])
  {
    hide Split;
    SplitAt(p, RECORD, pos);
    var rest := Split(p[pos + 1..], RECORD);
    var parts := Split(p, RECORD);
    assert parts[..|parts| - 1] == [p[..pos]] + rest[..|rest| - 1];
  }

  lemma RecordsTail(p: string, pos: nat)
    requires forall k :: 0 <= k < |p| ==> p[k] != RECORD
    requires pos < |p| && p[pos] == END && forall k :: 0 <= k < pos ==> p[k] != END
    ensures Records(p) == [p[..pos]] + Records(p[pos + 1..])
  {
    hide Split;
    SplitNone(p, RECORD);
    SplitNone(p[pos + 1..], RECORD);
    SplitAt(p, END, pos);
  }

  lemma RecordsEnd(p: string)
    requires forall k :: 0 <= k < |p| ==> p[k] != RECORD && p[k] != END
    ensures Records(p) == [p]
  {
    hide Split;
    SplitNone(p, RECORD);
    SplitNone(p, END);
  }

  lemma {:induction false} SplitAppend(head: string, tail: string, sep: char)
    ensures Split(head + [sep] + tail, sep) == Split(head, sep) + Split(tail, sep)
  {
    var s := head + [sep] + tail;
    if head == "" {
      assert s[1..] == tail;
    } else {
      assert s[1..] == head[1..] + [sep] + tail;
      SplitAppend(head[1..], tail, sep);
    }
  }

  // The last 0x1E decides: what stands before it is split at 0x1E alone, what
  // stands behind it at 0x03 alone.
  lemma RecordsAre(head: string, tail: string)
    requires RECORD !in tail
    ensures Records(tail) == Split(tail, END)
    ensures Records(head + [RECORD] + tail) == Split(head, RECORD) + Split(tail, END)
  {
    hide Split;
    SplitNone(tail, RECORD);
    SplitAppend(head, tail, RECORD);
  }

  // Splitting at a character is the only way to take a text apart at it.
  lemma {:induction false} SplitUnique(parts: seq<string>, sep: char)
    requires |parts| > 0 && forall k :: 0 <= k < |parts| ==> sep !in parts[k]
    ensures Split(Join(parts, sep), sep) == parts
  {
    SplitNone(parts[0], sep);
    if |parts| > 1 {
      SplitUnique(parts[1..], sep);
      SplitAppend(parts[0], Join(parts[1..], sep), sep);
    }
  }

  method FormatDLACData(text: string) returns (ret: seq<string>)
    ensures ret == Records(text)
  {
    hide Records, Split;
    ret := [];
    var p := text;
    while true
      invariant ret + Records(p) == Records(text)
      decreases |p|
    {
      var pos := Index(p, RECORD);
      if pos == -1 {
        pos := Index(p, END);
        if pos == -1 {
          RecordsEnd(p);
          ret := ret + [p];
          break;
        }
        RecordsTail(p, pos);
      } else {
        RecordsSplit(p, pos);
      }
      ret := ret + [p[..pos]];
      p := p[pos + 1..];
    }
  }
}
