/** The line reader of dump978/reader.c and the line printer of
    dump978/dump978.c that it undoes. A byte of text is a char. */
module Reader {
  import opened Collections

  const BUFFER := 4096
  const MAX_FRAME := 432

  datatype FrameType = Uplink | Downlink

  datatype Frame = Frame(kind: FrameType, data: seq<nat>)

  // ----- What a line means -----

  function HexValue(c: char): (v: int)
    ensures -1 <= v < 16
  {
    if '0' <= c <= '9' then c as int - '0' as int
    else if 'a' <= c <= 'f' then c as int - 'a' as int + 10
    else if 'A' <= c <= 'F' then c as int - 'A' as int + 10
    else -1
  }

  // Pairs of hex digits up to a semicolon, after the bytes already read.
  function Body(s: string, out: seq<nat>): Option<seq<nat>> {
    if s == "" then None
    else if s[0] == ';' then Some(out)
    else if |out| >= MAX_FRAME then None
    else if |s| == 1 || HexValue(s[0]) < 0 || HexValue(s[1]) < 0 then None
    else Body(s[2..], out + [16 * HexValue(s[0]) + HexValue(s[1])])
  }

  // The frame on a line, if any.
  function ParseLine(line: string): seq<Frame> {
    if line == "" || (line[0] != '-' && line[0] != '+') then []
    else
      match Body(line[1..], [])
      case None => []
      case Some(data) => [Frame(if line[0] == '-' then Downlink else Uplink, data)]
  }

  // ----- Which lines carry which frame -----

  // A hex digit in either case.
  ghost predicate IsDigit(c: char, d: int) {
    0 <= d < 16 && (c == "0123456789abcdef"[d] || c == "0123456789ABCDEF"[d])
  }

  lemma HexValueIs(c: char)
    ensures forall d :: IsDigit(c, d) <==> d >= 0 && HexValue(c) == d
  {
  }

  ghost predicate IsByte(high: char, low: char, b: nat) {
    exists h, l :: IsDigit(high, h) && IsDigit(low, l) && b == 16 * h + l
  }

  // The pairs of digits from here on, then a semicolon.
  ghost predicate IsBody(s: string, data: seq<nat>) {
    && |s| > 2 * |data| && s[2 * |data|] == ';'
    && forall i :: 0 <= i < |data| ==> IsByte(s[2 * i], s[2 * i + 1], data[i])
  }

  // A type character, up to 432 bytes, a semicolon, and anything behind it.
  ghost predicate IsFrameLine(line: string, kind: FrameType, data: seq<nat>) {
    && line != "" && line[0] == (if kind == Downlink then '-' else '+')
    && |data| <= MAX_FRAME && IsBody(line[1..], data)
  }

  lemma DigitNotSemicolon(c: char, d: int)
    requires IsDigit(c, d)
    ensures c != ';'
  {
  }

  lemma ByteValue(high: char, low: char, b: nat)
    ensures IsByte(high, low, b) <==>
            HexValue(high) >= 0 && HexValue(low) >= 0 && b == 16 * HexValue(high) + HexValue(low)
    ensures IsByte(high, low, b) ==> high != ';'
  {
    hide HexValue, IsDigit;
    HexValueIs(high);
    HexValueIs(low);
    if IsByte(high, low, b) {
      var h, l :| IsDigit(high, h) && IsDigit(low, l) && b == 16 * h + l;
      DigitNotSemicolon(high, h);
    } else if HexValue(high) >= 0 && HexValue(low) >= 0 {
      assert IsDigit(high, HexValue(high)) && IsDigit(low, HexValue(low));
    }
  }

  lemma EmptyBody(s: string, data: seq<nat>)
    requires s != "" && s[0] == ';'
    ensures IsBody(s, data) <==> data == []
  {
    if IsBody(s, data) && data != [] {
      ByteValue(s[0], s[1], data[0]);
    }
  }

  lemma LongerBody(s: string, data: seq<nat>)
    requires |s| >= 2 && s[0] != ';'
    ensures IsBody(s, data) <==> data != [] && IsByte(s[0], s[1], data[0]) && IsBody(s[2..], data[1..])
  {
    hide IsByte;
    if data != [] && IsByte(s[0], s[1], data[0]) && IsBody(s[2..], data[1..]) {
      forall i | 0 <= i < |data| ensures IsByte(s[2 * i], s[2 * i + 1], data[i]) {
        if i > 0 {
          assert IsByte(s[2..][2 * (i - 1)], s[2..][2 * (i - 1) + 1], data[1..][i - 1]);
        }
      }
    }
    if IsBody(s, data) {
      assert data != [];
      forall i | 0 <= i < |data[1..]| ensures IsByte(s[2..][2 * i], s[2..][2 * i + 1], data[1..][i]) {
        assert IsByte(s[2 * (i + 1)], s[2 * (i + 1) + 1], data[i + 1]);
      }
    }
  }

  // Reading the pairs finds exactly the bytes that stand there.
  lemma {:induction false} BodyIs(s: string, out: seq<nat>, data: seq<nat>)
    requires |out| <= MAX_FRAME
    ensures Body(s, out) == Some(out + data) <==> IsBody(s, data) && |out| + |data| <= MAX_FRAME
    decreases |s|
  {
    hide HexValue, IsByte;
    if s != "" && s[0] == ';' {
      EmptyBody(s, data);
      assert out + [] == out;
    } else if |s| >= 2 && |out| < MAX_FRAME {
      hide IsBody;
      LongerBody(s, data);
      if HexValue(s[0]) >= 0 && HexValue(s[1]) >= 0 {
        var b: nat := 16 * HexValue(s[0]) + HexValue(s[1]);
        if data != [] {
          ByteValue(s[0], s[1], data[0]);
          BodyIs(s[2..], out + [b], data[1..]);
          assert out + [data[0]] + data[1..] == out + data && (out + data)[|out|] == data[0];
        }
        BodyNext(s[2..], out, b);
      } else if data != [] {
        ByteValue(s[0], s[1], data[0]);
      }
    } else {
      NoBody(s, out, data);
    }
  }

  lemma NoBody(s: string, out: seq<nat>, data: seq<nat>)
    requires s == "" || s[0] != ';'
    requires |s| < 2 || |out| >= MAX_FRAME
    ensures Body(s, out) == None && !(IsBody(s, data) && |out| + |data| <= MAX_FRAME)
  {
    hide HexValue, IsByte;
  }

  // What has been read stays in front.
  lemma {:induction false} BodyStartsWith(s: string, out: seq<nat>)
    ensures Body(s, out).Some? ==> |out| <= |Body(s, out).value| && Body(s, out).value[..|out|] == out
    decreases |s|
  {
    hide HexValue;
    if |s| >= 2 && s[0] != ';' && |out| < MAX_FRAME && HexValue(s[0]) >= 0 && HexValue(s[1]) >= 0 {
      var b := 16 * HexValue(s[0]) + HexValue(s[1]);
      BodyStartsWith(s[2..], out + [b]);
      if Body(s, out).Some? {
        assert Body(s, out).value[..|out|] == Body(s, out).value[..|out| + 1][..|out|];
      }
    }
  }

  lemma BodyNext(s: string, out: seq<nat>, b: nat)
    ensures var r := Body(s, out + [b]); r.Some? ==> |out| < |r.value| && r.value[|out|] == b
  {
    hide Body;
    BodyStartsWith(s, out + [b]);
    var r := Body(s, out + [b]);
    assert r.Some? ==> r.value[..|out| + 1][|out|] == (out + [b])[|out|];
  }

  // A line yields a frame if and only if it has the shape of one, and then that one.
  lemma ParseLineIs(line: string, kind: FrameType, data: seq<nat>)
    ensures ParseLine(line) == [Frame(kind, data)] <==> IsFrameLine(line, kind, data)
    ensures |ParseLine(line)| <= 1
  {
    hide Body, IsBody;
    if line != "" {
      BodyIs(line[1..], [], data);
      assert [] + data == data;
    }
  }

  // Every other line yields nothing.
  lemma NoFrameIff(line: string)
    ensures ParseLine(line) == [] <==> !exists kind, data :: IsFrameLine(line, kind, data)
  {
    hide ParseLine, IsFrameLine;
    ParseLineIs(line, Uplink, []);
    if ParseLine(line) != [] {
      var f := ParseLine(line)[0];
      assert ParseLine(line) == [Frame(f.kind, f.data)];
      ParseLineIs(line, f.kind, f.data);
    }
    if kind, data :| IsFrameLine(line, kind, data) {
      ParseLineIs(line, kind, data);
    }
  }

  // A line that breaks off before its semicolon, for one.
  lemma TruncatedLine(line: string)
    requires ';' !in line
    ensures ParseLine(line) == []
  {
    hide ParseLine;
    NoFrameIff(line);
    if kind, data :| IsFrameLine(line, kind, data) {
      FrameLineHasSemicolon(line, kind, data);
    }
  }

  lemma FrameLineHasSemicolon(line: string, kind: FrameType, data: seq<nat>)
    requires IsFrameLine(line, kind, data)
    ensures ';' in line
  {
    assert line[1..][2 * |data|] == line[1 + 2 * |data|];
  }

  // ----- What a stream means, one byte at a time -----

  // The unfinished line after one more byte. Once it fills the buffer it is dropped.
  function Next(partial: string, c: char): string {
    if c == '\n' || |partial| + 1 == BUFFER then "" else partial + [c]
  }

  function Emit(partial: string, c: char): seq<Frame> {
    if c == '\n' then ParseLine(partial) else []
  }

  ghost function Remains(partial: string, input: string): string
    decreases |input|
  {
    if input == "" then partial else Remains(Next(partial, input[0]), input[1..])
  }

  ghost function Delivers(partial: string, input: string): seq<Frame>
    decreases |input|
  {
    if input == "" then []
    else Emit(partial, input[0]) + Delivers(Next(partial, input[0]), input[1..])
  }

  // However a stream is cut in two, the same frames come out.
  lemma {:induction false} ChunksCompose(partial: string, a: string, b: string)
    ensures Delivers(partial, a + b) == Delivers(partial, a) + Delivers(Remains(partial, a), b)
    ensures Remains(partial, a + b) == Remains(Remains(partial, a), b)
    decreases |a|
  {
    hide Emit, Next;
    if a == "" {
      assert a + b == b;
    } else {
      assert (a + b)[1..] == a[1..] + b;
      ChunksCompose(Next(partial, a[0]), a[1..], b);
    }
  }

  // ----- What a buffer full of lines means -----

  function FirstNewline(s: string): (i: nat)
    ensures i <= |s|
    ensures '\n' !in s[..i]
    ensures i < |s| ==> s[i] == '\n'
  {
    if s == "" || s[0] == '\n' then 0 else 1 + FirstNewline(s[1..])
  }

  lemma BeforeNewline(s: string, i: nat)
    requires i <= |s| && '\n' !in s[..i]
    ensures forall k :: 0 <= k < i ==> s[k] != '\n'
  {
    forall k | 0 <= k < i ensures s[k] != '\n' {
      assert s[..i][k] == s[k];
    }
  }

  lemma FirstNewlineUnique(s: string, i: nat)
    requires i <= |s| && '\n' !in s[..i] && (i < |s| ==> s[i] == '\n')
    ensures FirstNewline(s) == i
  {
    hide FirstNewline;
    BeforeNewline(s, i);
    BeforeNewline(s, FirstNewline(s));
  }

  ghost function LineFrames(s: string): seq<Frame> {
    var i := FirstNewline(s);
    if i == |s| then [] else ParseLine(s[..i]) + LineFrames(s[i + 1..])
  }

  ghost function Tail(s: string): string {
    var i := FirstNewline(s);
    if i == |s| then s else Tail(s[i + 1..])
  }

  lemma {:induction false} TailShape(s: string)
    ensures '\n' !in Tail(s) && |Tail(s)| <= |s|
  {
    hide FirstNewline;
    var i := FirstNewline(s);
    if i == |s| {
      assert s[..i] == s;
    } else {
      TailShape(s[i + 1..]);
    }
  }

  // A full buffer without a newline is as good as an empty one.
  function Settled(s: string): string {
    if |s| == BUFFER then "" else s
  }

  lemma LinesUnfold(line: string, rest: string)
    requires '\n' !in line
    ensures LineFrames(line + ['\n'] + rest) == ParseLine(line) + LineFrames(rest)
    ensures Tail(line + ['\n'] + rest) == Tail(rest)
  {
    hide FirstNewline, ParseLine;
    var s := line + ['\n'] + rest;
    assert s[..|line|] == line;
    FirstNewlineUnique(s, |line|);
    assert s[|line| + 1..] == rest;
  }

  lemma LineUnfinished(line: string)
    requires '\n' !in line
    ensures LineFrames(line) == [] && Tail(line) == line
  {
    hide FirstNewline;
    assert line[..|line|] == line;
    FirstNewlineUnique(line, |line|);
  }

  // Processing the buffer line by line is processing its new bytes one by one.
  lemma {:induction false} BufferMatches(partial: string, chunk: string)
    requires '\n' !in partial && |partial| < BUFFER && |partial| + |chunk| <= BUFFER
    ensures LineFrames(partial + chunk) == Delivers(partial, chunk)
    ensures Settled(Tail(partial + chunk)) == Remains(partial, chunk)
    decreases |chunk|
  {
    hide LineFrames, Tail, ParseLine;
    if chunk == "" {
      assert partial + chunk == partial;
      LineUnfinished(partial);
    } else {
      var c, rest := chunk[0], chunk[1..];
      assert partial + chunk == partial + [c] + rest;
      if c == '\n' {
        LinesUnfold(partial, rest);
        BufferMatches("", rest);
        assert "" + rest == rest;
      } else if |partial| + 1 == BUFFER {
        assert rest == "";
        LineUnfinished(partial + chunk);
      } else {
        BufferMatches(partial + [c], rest);
      }
    }
  }

  // ----- The reader -----

  class Reader {
    const buf: array<char>
    const frame: array<nat>
    var used: nat
    // the frames handed to the handler so far
    var handled: seq<Frame>

    ghost predicate Valid()
      reads this, buf
    {
      && buf.Length == BUFFER && frame.Length == MAX_FRAME
      && used <= BUFFER && '\n' !in buf[..used]
    }

    // The unfinished line.
    ghost function Partial(): string
      reads this, buf
      requires Valid()
    {
      Settled(buf[..used])
    }

    constructor ()
      ensures Valid() && Partial() == "" && handled == []
      ensures fresh(buf) && fresh(frame)
    {
      buf := new char[BUFFER];
      frame := new nat[MAX_FRAME];
      used := 0;
      handled := [];
    }

    method HexByte(p: nat) returns (byte: int)
      requires p + 1 < buf.Length
      ensures byte < 0 <==> HexValue(buf[p]) < 0 || HexValue(buf[p + 1]) < 0
      ensures byte >= 0 ==> byte == 16 * HexValue(buf[p]) + HexValue(buf[p + 1])
    {
      var i := HexValue(buf[p]);
      if i < 0 {
        return -1;
      }
      i := 16 * i;
      var low := HexValue(buf[p + 1]);
      if low < 0 {
        return -1;
      }
      return i + low;
    }

    method ProcessLine(start: nat, end: nat) returns (count: nat)
      requires buf.Length == BUFFER && frame.Length == MAX_FRAME
      requires start < end < buf.Length && buf[end] == '\n' && '\n' !in buf[start..end]
      modifies this`handled, frame
      ensures handled == old(handled) + ParseLine(buf[start..end])
      ensures count == |ParseLine(buf[start..end])|
    {
      ghost var line := buf[start..end];
      var frametype;
      if buf[start] == '-' {
        frametype := Downlink;
      } else if buf[start] == '+' {
        frametype := Uplink;
      } else {
        return 0;
      }
      var p, len := start + 1, 0;
      assert line[1..] == buf[p..end];
      assert frame[..0] == [];
      while p < end
        invariant start < p <= end && len <= MAX_FRAME
        invariant handled == old(handled)
        invariant Body(buf[p..end], frame[..len]) == Body(line[1..], [])
        decreases end - p
      {
        ghost var s, out := buf[p..end], frame[..len];
        assert s[0] == buf[p] && (p + 1 < end ==> s[1] == buf[p + 1]);
        if buf[p] == ';' {
          handled := handled + [Frame(frametype, frame[..len])];
          return 1;
        }
        if len >= MAX_FRAME {
          return 0;
        }
        var byte := HexByte(p);
        if byte < 0 {
          return 0;
        }
        assert p + 1 != end;
        frame[len] := byte;
        len := len + 1;
        p := p + 2;
        assert frame[..len] == out + [byte];
        assert buf[p..end] == s[2..];
      }
      return 0;
    }

    method FindNewline(p: nat, end: nat) returns (newline: nat)
      requires p <= end <= buf.Length
      ensures p <= newline <= end
      ensures '\n' !in buf[p..newline] && (newline < end ==> buf[newline] == '\n')
    {
      newline := p;
      while newline < end && buf[newline] != '\n'
        invariant p <= newline <= end && '\n' !in buf[p..newline]
      {
        assert buf[p..newline + 1] == buf[p..newline] + [buf[newline]];
        newline := newline + 1;
      }
    }

    // Hands over every complete line and moves the rest to the front.
    method ProcessInput() returns (count: nat)
      requires buf.Length == BUFFER && frame.Length == MAX_FRAME && used <= BUFFER
      modifies this`handled, this`used, buf, frame
      ensures used <= BUFFER
      ensures handled == old(handled) + LineFrames(old(buf[..used]))
      ensures count == |LineFrames(old(buf[..used]))|
      ensures buf[..used] == Tail(old(buf[..used]))
    {
      hide LineFrames, Tail, ParseLine, FirstNewline;
      ghost var s := buf[..used];
      ghost var b := buf[..];
      var p, end := 0, used;
      ghost var out: seq<Frame> := [];
      count := 0;
      assert s[0..] == s;
      while p < end
        invariant p <= end == used == old(used) && buf[..] == b
        invariant handled == old(handled) + out && count == |out|
        invariant LineFrames(s) == out + LineFrames(s[p..]) && Tail(s) == Tail(s[p..])
        decreases end - p
      {
        var newline := FindNewline(p, end);
        assert s[p..newline] == buf[p..newline];
        if newline == end {
          break;
        }
        assert s[p..] == s[p..newline] + ['\n'] + s[newline + 1..];
        LinesUnfold(s[p..newline], s[newline + 1..]);
        if buf[p] == '-' || buf[p] == '+' {
          var n := ProcessLine(p, newline);
          count := count + n;
        } else {
          NoFrame(s[p..newline]);
        }
        out := out + ParseLine(s[p..newline]);
        p := newline + 1;
      }
      assert s[p..] == buf[p..end];
      LineUnfinished(s[p..]);
      if p >= end {
        used := 0;
      } else {
        used := end - p;
        forall i | 0 <= i < end - p {
          buf[i] := buf[p + i];
        }
      }
      assert buf[..used] == s[p..];
    }

    // Reads until the input is used up or a read fails: how many bytes each read
    // returns, and when reads fail, is up to the system. incoming is what will
    // arrive; consumed is how much of it was read.
    method ReadFrames(incoming: string) returns (result: int, consumed: nat)
      requires Valid()
      modifies this`handled, this`used, buf, frame
      ensures Valid() && consumed <= |incoming|
      ensures handled == old(handled) + Delivers(old(Partial()), incoming[..consumed])
      ensures Partial() == Remains(old(Partial()), incoming[..consumed])
      ensures result >= 0 ==> result == |handled| - |old(handled)|
      ensures result < 0 ==> result == -1
      ensures consumed < |incoming| ==> result != 0
    {
      hide LineFrames, Tail, Delivers, Remains;
      var count := 0;
      consumed := 0;
      ghost var before := Partial();
      assert incoming[..0] == "";
      NothingRead(before);
      var bytesRead: int;
      while true
        invariant Valid() && consumed <= |incoming|
        invariant handled == old(handled) + Delivers(before, incoming[..consumed])
        invariant Partial() == Remains(before, incoming[..consumed])
        invariant count == |handled| - |old(handled)|
        decreases |incoming| - consumed
      {
        if used == buf.Length {
          used := 0;
        }
        assert buf[..used] == Remains(before, incoming[..consumed]);
        bytesRead :| -1 <= bytesRead <= buf.Length - used && bytesRead <= |incoming| - consumed
                  && (bytesRead == 0 ==> consumed == |incoming|);
        if bytesRead <= 0 {
          break;
        }
        var n := TakeChunk(incoming[consumed..consumed + bytesRead]);
        assert incoming[..consumed + bytesRead] == incoming[..consumed] + incoming[consumed..consumed + bytesRead];
        ChunksCompose(before, incoming[..consumed], incoming[consumed..consumed + bytesRead]);
        consumed := consumed + bytesRead;
        count := count + n;
      }
      if bytesRead == 0 {
        return count, consumed;
      }
      var temporary: bool := *;
      if temporary {
        return if count > 0 then count else -1, consumed;
      }
      return -1, consumed;
    }

    // One successful read and what is done with it.
    method TakeChunk(chunk: string) returns (count: nat)
      requires Valid() && used < BUFFER && |chunk| <= BUFFER - used
      modifies this`handled, this`used, buf, frame
      ensures Valid()
      ensures handled == old(handled) + Delivers(old(buf[..used]), chunk)
      ensures count == |handled| - |old(handled)|
      ensures Partial() == Remains(old(buf[..used]), chunk)
    {
      hide LineFrames, Tail, Delivers, Remains;
      ghost var before := buf[..used];
      forall i | 0 <= i < |chunk| {
        buf[used + i] := chunk[i];
      }
      used := used + |chunk|;
      assert buf[..used] == before + chunk;
      count := ProcessInput();
      BufferMatches(before, chunk);
      TailShape(before + chunk);
    }
  }

  lemma NoFrame(line: string)
    requires line != "" ==> line[0] != '-' && line[0] != '+'
    ensures ParseLine(line) == []
  {
  }

  lemma NothingRead(partial: string)
    ensures Delivers(partial, "") == [] && Remains(partial, "") == partial
  {
  }

  // ----- Lines that fit the buffer are all read -----

  lemma {:induction false} RunsOn(partial: string, line: string, rest: string)
    requires '\n' !in line && |partial| + |line| < BUFFER
    ensures Delivers(partial, line + rest) == Delivers(partial + line, rest)
    ensures Remains(partial, line + rest) == Remains(partial + line, rest)
    decreases |line|
  {
    hide ParseLine;
    if line == "" {
      assert line + rest == rest && partial + line == partial;
    } else {
      assert (line + rest)[1..] == line[1..] + rest;
      assert partial + line == partial + [line[0]] + line[1..];
      RunsOn(partial + [line[0]], line[1..], rest);
    }
  }

  lemma LineDelivered(line: string, rest: string)
    requires '\n' !in line && |line| + 1 <= BUFFER
    ensures Delivers("", line + ['\n'] + rest) == ParseLine(line) + Delivers("", rest)
    ensures Remains("", line + ['\n'] + rest) == Remains("", rest)
  {
    hide ParseLine;
    var end := ['\n'] + rest;
    assert line + ['\n'] + rest == line + end;
    RunsOn("", line, end);
    assert "" + line == line;
    assert end[1..] == rest;
  }

  // Every complete line, newline included, fits the buffer.
  ghost predicate ShortLines(s: string) {
    var i := FirstNewline(s);
    i == |s| || (i + 1 <= BUFFER && ShortLines(s[i + 1..]))
  }

  // Then nothing is ever dropped: the frames are those of the lines.
  lemma {:induction false} ShortLinesAllRead(s: string)
    requires ShortLines(s)
    ensures Delivers("", s) == LineFrames(s)
    ensures |Tail(s)| < BUFFER ==> Remains("", s) == Tail(s)
    decreases |s|
  {
    hide ParseLine, FirstNewline, Delivers, Remains;
    var i := FirstNewline(s);
    if i == |s| {
      assert s[..i] == s;
      NothingDelivered("", s);
      if |s| < BUFFER {
        RunsOn("", s, "");
        NothingRead(s);
        assert s + "" == s && "" + s == s;
      }
    } else {
      var line, rest := s[..i], s[i + 1..];
      assert s == line + ['\n'] + rest;
      LineDelivered(line, rest);
      ShortLinesAllRead(rest);
    }
  }

  lemma {:induction false} NothingDelivered(partial: string, s: string)
    requires '\n' !in s
    ensures Delivers(partial, s) == []
    decreases |s|
  {
    if s != "" {
      NothingDelivered(Next(partial, s[0]), s[1..]);
    }
  }

  // A longer line is not skipped: what follows its first 4096 bytes is read as a
  // line of its own.
  lemma OverlongLineRestarts(head: string, rest: string)
    requires |head| == BUFFER && '\n' !in head
    ensures Delivers("", head + rest) == Delivers("", rest)
  {
    hide ParseLine, Delivers, Remains;
    var n := BUFFER - 1;
    var body, last := head[..n], [head[n]] + rest;
    assert head + rest == body + last;
    RunsOn("", body, last);
    assert "" + body == body;
    LastByte(body, last);
    assert last[1..] == rest;
  }

  // What is left of a line when 4096 bytes at a time have been dropped from its front.
  function LastPart(line: string): string {
    line[|line| - |line| % BUFFER..]
  }

  lemma LastPartStep(line: string)
    requires |line| >= BUFFER
    ensures LastPart(line) == LastPart(line[BUFFER..])
  {
    var n := |line|;
    assert (n - BUFFER) % BUFFER == n % BUFFER;
  }

  // So a line of any length yields the frame on its last part.
  lemma {:induction false} AnyLineDelivered(line: string, rest: string)
    requires '\n' !in line
    ensures Delivers("", line + ['\n'] + rest) == ParseLine(LastPart(line)) + Delivers("", rest)
    decreases |line|
  {
    hide ParseLine, Delivers, LastPart;
    if |line| < BUFFER {
      LastPartShort(line);
      LineDelivered(line, rest);
    } else {
      var head, more := line[..BUFFER], line[BUFFER..];
      assert line + ['\n'] + rest == head + (more + ['\n'] + rest);
      OverlongLineRestarts(head, more + ['\n'] + rest);
      AnyLineDelivered(more, rest);
      LastPartStep(line);
    }
  }

  lemma LastPartShort(line: string)
    requires |line| < BUFFER
    ensures LastPart(line) == line
  {
    assert |line| % BUFFER == |line|;
  }

  // A line is read as it stands exactly when its last part has the same frame, or
  // none as well. Lines that fit the buffer are their own last part.
  lemma ReadAsItStands(line: string, rest: string)
    requires '\n' !in line
    ensures Delivers("", line + ['\n'] + rest) == ParseLine(line) + Delivers("", rest)
            <==> ParseLine(line) == ParseLine(LastPart(line))
    ensures |line| < BUFFER ==> LastPart(line) == line
  {
    hide ParseLine, Delivers, LastPart;
    AnyLineDelivered(line, rest);
    if |line| < BUFFER {
      LastPartShort(line);
    }
    var a, b, c := ParseLine(line), ParseLine(LastPart(line)), Delivers("", rest);
    if a + c == b + c {
      assert |a| == |b|;
      assert a == (a + c)[..|a|] && b == (b + c)[..|b|];
    }
  }

  ghost function LastPartFrames(s: string): seq<Frame> {
    var i := FirstNewline(s);
    if i == |s| then [] else ParseLine(LastPart(s[..i])) + LastPartFrames(s[i + 1..])
  }

  // What any stream at all yields.
  lemma {:induction false} StreamDelivered(s: string)
    ensures Delivers("", s) == LastPartFrames(s)
    decreases |s|
  {
    hide ParseLine, FirstNewline, Delivers, LastPart;
    var i := FirstNewline(s);
    if i == |s| {
      assert s[..i] == s;
      NothingDelivered("", s);
    } else {
      var line, rest := s[..i], s[i + 1..];
      assert s == line + ['\n'] + rest;
      AnyLineDelivered(line, rest);
      StreamDelivered(rest);
    }
  }

  // A line without a frame, of which the reader makes one.
  lemma OverlongLineMisread()
    ensures var line := seq(BUFFER, _ => 'x') + "-;";
            ParseLine(line) == [] && Delivers("", line + ['\n']) == [Frame(Downlink, [])]
  {
    var head := seq(BUFFER, _ => 'x');
    var line := head + "-;";
    assert line[0] == 'x';
    assert |line| % BUFFER == 2 && line[BUFFER..] == "-;";
    assert line + ['\n'] == line + ['\n'] + "";
    AnyLineDelivered(line, "");
    NothingRead("");
    EmptyFrameLine();
    hide *;
  }

  lemma EmptyFrameLine()
    ensures ParseLine("-;") == [Frame(Downlink, [])]
  {
    assert "-;"[1..] == ";";
  }

  lemma LastByte(partial: string, input: string)
    requires |partial| + 1 == BUFFER && input != "" && input[0] != '\n'
    ensures Delivers(partial, input) == Delivers("", input[1..])
  {
    hide ParseLine, Body;
    var c := input[0];
    assert Emit(partial, c) == [] && Next(partial, c) == "";
    hide Emit, Next;
  }

  // ----- The printer -----

  datatype Message = Message(kind: FrameType, data: seq<nat>, rsErrors: int, signalStrength: int)

  // What the demodulator prints: the counts are C ints.
  ghost predicate Printable(m: Message) {
    && |m.data| <= MAX_FRAME && (forall i :: 0 <= i < |m.data| ==> m.data[i] < 256)
    && -0x8000_0000 <= m.rsErrors < 0x8000_0000 && -0x8000_0000 <= m.signalStrength < 0x8000_0000
  }

  function HexDigit(d: nat): char
    requires d < 16
  {
    "0123456789abcdef"[d]
  }

  function Hex(b: nat): string
    requires b < 256
  {
    [HexDigit(b / 16), HexDigit(b % 16)]
  }

  function Digits(n: nat): string {
    if n < 10 then [HexDigit(n)] else Digits(n / 10) + [HexDigit(n % 10)]
  }

  function Decimal(n: int): string {
    if n < 0 then "-" + Digits(-n) else Digits(n)
  }

  method DumpRawMessage(updown: char, data: array<nat>, len: nat, rsErrors: int, signalStrength: int)
    returns (text: string)
    requires len <= data.Length && forall i :: 0 <= i < len ==> data[i] < 256
    ensures text == [updown] + HexAll(data[..len]) + Fields(rsErrors, signalStrength) + "\n"
  {
    hide HexAll, Decimal, Hex;
    text := [updown];
    NoHex();
    assert data[..0] == [];
    for i := 0 to len
      invariant text == [updown] + HexAll(data[..i])
    {
      text := text + Hex(data[i]);
      HexSnoc(data[..i], data[i]);
      assert data[..i + 1] == data[..i] + [data[i]];
    }
    ghost var start := text;
    if rsErrors != 0 {
      text := text + (";rs=" + Decimal(rsErrors));
    }
    text := text + (";ss=" + Decimal(signalStrength));
    text := text + ";\n";
    assert text == start + Fields(rsErrors, signalStrength) + "\n";
  }

  function HexAll(data: seq<nat>): string
    requires forall i :: 0 <= i < |data| ==> data[i] < 256
  {
    if data == [] then "" else Hex(data[0]) + HexAll(data[1..])
  }

  lemma NoHex()
    ensures HexAll([]) == ""
  {
  }

  lemma {:induction false} HexSnoc(data: seq<nat>, b: nat)
    requires b < 256 && forall i :: 0 <= i < |data| ==> data[i] < 256
    ensures HexAll(data + [b]) == HexAll(data) + Hex(b)
  {
    if data == [] {
      assert data + [b] == [b];
      assert [b][1..] == [];
    } else {
      assert (data + [b])[1..] == data[1..] + [b];
      HexSnoc(data[1..], b);
    }
  }

  function Fields(rsErrors: int, signalStrength: int): string {
    (if rsErrors != 0 then ";rs=" + Decimal(rsErrors) else "") + ";ss=" + Decimal(signalStrength) + ";"
  }

  // The line without its newline.
  ghost function Printed(m: Message): string
    requires Printable(m)
  {
    [if m.kind == Downlink then '-' else '+'] + HexAll(m.data) + Fields(m.rsErrors, m.signalStrength)
  }

  // ----- The reader undoes the printer -----

  lemma HexDigitValue(d: nat)
    requires d < 16
    ensures HexValue(HexDigit(d)) == d && HexDigit(d) != ';' && HexDigit(d) != '\n'
    ensures '0' <= HexDigit(d) <= '9' || 'a' <= HexDigit(d) <= 'f'
  {
  }

  // One byte of a line, written as two hex digits.
  lemma BodyOfByte(b: nat, more: string, out: seq<nat>)
    requires b < 256 && |out| < MAX_FRAME
    ensures Body(Hex(b) + more, out) == Body(more, out + [b])
  {
    hide HexValue, HexDigit;
    HexDigitValue(b / 16);
    HexDigitValue(b % 16);
    var s := Hex(b) + more;
    assert s[2..] == more;
    assert s[0] == HexDigit(b / 16) && s[1] == HexDigit(b % 16);
  }

  lemma {:induction false} BodyOfHex(data: seq<nat>, out: seq<nat>, rest: string)
    requires forall i :: 0 <= i < |data| ==> data[i] < 256
    requires |out| + |data| <= MAX_FRAME && rest != "" && rest[0] == ';'
    ensures Body(HexAll(data) + rest, out) == Some(out + data)
    decreases |data|
  {
    hide Hex;
    if data == [] {
      assert HexAll(data) + rest == rest && out + data == out;
    } else {
      hide Body;
      var b, more := data[0], HexAll(data[1..]) + rest;
      assert HexAll(data) + rest == Hex(b) + more;
      BodyOfByte(b, more, out);
      BodyOfHex(data[1..], out + [b], rest);
      assert out + [b] + data[1..] == out + data;
    }
  }

  lemma FieldsStart(rsErrors: int, signalStrength: int)
    ensures var f := Fields(rsErrors, signalStrength); f != "" && f[0] == ';'
  {
  }

  lemma PrintedParses(m: Message)
    requires Printable(m)
    ensures ParseLine(Printed(m)) == [Frame(m.kind, m.data)]
  {
    hide Body, HexAll, Fields;
    var f := Fields(m.rsErrors, m.signalStrength);
    FieldsStart(m.rsErrors, m.signalStrength);
    assert Printed(m)[1..] == HexAll(m.data) + f;
    BodyOfHex(m.data, [], f);
    assert [] + m.data == m.data;
  }

  ghost function Pow10(k: nat): nat {
    if k == 0 then 1 else 10 * Pow10(k - 1)
  }

  lemma {:induction false} DigitsShape(n: nat, k: nat)
    requires n < Pow10(k) && k >= 1
    ensures |Digits(n)| <= k && '\n' !in Digits(n)
    decreases k
  {
    HexDigitValue(n % 10);
    if n < 10 {
      HexDigitValue(n);
    } else {
      assert k > 1;
      DigitsShape(n / 10, k - 1);
    }
  }

  lemma DecimalShape(n: int)
    requires -0x8000_0000 <= n < 0x8000_0000
    ensures |Decimal(n)| <= 11 && '\n' !in Decimal(n)
  {
    hide Digits;
    assert Pow10(5) == 100000;
    assert Pow10(10) == 100000 * 100000;
    DigitsShape(if n < 0 then -n else n, 10);
  }

  lemma {:induction false} HexAllShape(data: seq<nat>)
    requires forall i :: 0 <= i < |data| ==> data[i] < 256
    ensures |HexAll(data)| == 2 * |data| && '\n' !in HexAll(data)
  {
    hide HexDigit;
    if data != [] {
      HexDigitValue(data[0] / 16);
      HexDigitValue(data[0] % 16);
      HexAllShape(data[1..]);
    }
  }

  lemma FieldsShape(rsErrors: int, signalStrength: int)
    requires -0x8000_0000 <= rsErrors < 0x8000_0000 && -0x8000_0000 <= signalStrength < 0x8000_0000
    ensures |Fields(rsErrors, signalStrength)| <= 31 && '\n' !in Fields(rsErrors, signalStrength)
  {
    hide Decimal;
    DecimalShape(rsErrors);
    DecimalShape(signalStrength);
  }

  // A printed line fits the reader's buffer four times over.
  lemma PrintedShape(m: Message)
    requires Printable(m)
    ensures |Printed(m)| + 1 <= 897 && '\n' !in Printed(m)
  {
    hide HexAll, Fields;
    HexAllShape(m.data);
    FieldsShape(m.rsErrors, m.signalStrength);
  }

  // ----- The numbers on a printed line -----

  // The number that decimal digits write.
  ghost function NumberOf(digits: string): int {
    if digits == "" then 0
    else 10 * NumberOf(digits[..|digits| - 1]) + (digits[|digits| - 1] as int - '0' as int)
  }

  // No leading zero.
  ghost predicate Canonical(digits: string) {
    && digits != "" && (forall i :: 0 <= i < |digits| ==> '0' <= digits[i] <= '9')
    && (digits[0] == '0' ==> |digits| == 1)
  }

  // A number as C prints it: a minus sign only before a number below zero.
  ghost predicate Writes(text: string, n: int) {
    if n < 0 then text != "" && text[0] == '-' && Canonical(text[1..]) && NumberOf(text[1..]) == -n
    else Canonical(text) && NumberOf(text) == n
  }

  lemma NumberOfDigit(digits: string, d: nat)
    requires d < 10
    ensures '0' <= HexDigit(d) <= '9' && (HexDigit(d) == '0' ==> d == 0)
    ensures NumberOf(digits + [HexDigit(d)]) == 10 * NumberOf(digits) + d
    ensures NumberOf("") == 0
  {
    assert (digits + [HexDigit(d)])[..|digits|] == digits;
  }

  lemma {:induction false} DigitsRead(n: nat)
    ensures Canonical(Digits(n)) && NumberOf(Digits(n)) == n && (Digits(n)[0] == '0' ==> n == 0)
  {
    hide HexDigit, NumberOf;
    NumberOfDigit("", 0);
    NumberOfDigit(if n < 10 then "" else Digits(n / 10), n % 10);
    if n < 10 {
      assert "" + [HexDigit(n)] == Digits(n);
    } else {
      DigitsRead(n / 10);
    }
  }

  lemma DecimalRead(n: int)
    ensures Writes(Decimal(n), n)
  {
    hide Digits, NumberOf;
    DigitsRead(if n < 0 then -n else n);
    if n < 0 {
      assert ("-" + Digits(-n))[1..] == Digits(-n);
    }
  }

  // Behind the bytes: the error count unless it is zero, then the signal strength.
  lemma PrintedFields(m: Message) returns (rs: string, ss: string)
    requires Printable(m)
    ensures Writes(rs, m.rsErrors) && Writes(ss, m.signalStrength)
    ensures |Printed(m)| > 2 * |m.data|
    ensures var counts := if m.rsErrors == 0 then "" else ";rs=" + rs;
            Printed(m)[2 * |m.data| + 1..] == counts + ";ss=" + ss + ";"
  {
    hide Digits, HexAll, Decimal, Writes;
    HexAllShape(m.data);
    rs, ss := Decimal(m.rsErrors), Decimal(m.signalStrength);
    DecimalRead(m.rsErrors);
    DecimalRead(m.signalStrength);
    var start := [if m.kind == Downlink then '-' else '+'] + HexAll(m.data);
    assert Printed(m) == start + Fields(m.rsErrors, m.signalStrength);
  }

  ghost function Stream(msgs: seq<Message>): string
    requires forall i :: 0 <= i < |msgs| ==> Printable(msgs[i])
  {
    if msgs == [] then "" else Printed(msgs[0]) + ['\n'] + Stream(msgs[1..])
  }

  // Whatever is printed is read back: the same frames, in the same order, with
  // nothing left over.
  lemma {:induction false} RoundTrip(msgs: seq<Message>)
    requires forall i :: 0 <= i < |msgs| ==> Printable(msgs[i])
    ensures var got := Delivers("", Stream(msgs));
            |got| == |msgs| && forall i :: 0 <= i < |msgs| ==> got[i] == Frame(msgs[i].kind, msgs[i].data)
    ensures Remains("", Stream(msgs)) == ""
    decreases |msgs|
  {
    hide Delivers, Remains, ParseLine, Printed, Printable;
    if msgs == [] {
      NothingRead("");
    } else {
      PrintedShape(msgs[0]);
      PrintedParses(msgs[0]);
      LineDelivered(Printed(msgs[0]), Stream(msgs[1..]));
      RoundTrip(msgs[1..]);
    }
  }
}
