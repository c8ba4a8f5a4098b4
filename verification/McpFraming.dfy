/** Bounded line framing on the request stream. */
module McpFraming {
  import opened Struct
  import opened Utf8

  const NEWLINE: byte := 0x0A
  const MAX_REQUEST_BYTES: nat := 256 * 1024

  /** What the reader yields for one line: an error, or its text. */
  datatype Frame = Oversized | NotUtf8 | Line(text: Text)

  /** Offset behind the first newline, or the end of the data. */
  function LineEnd(data: bytes): (n: nat)
    ensures n <= |data|
    ensures data != [] ==> n > 0
    ensures forall i :: 0 <= i < n - 1 ==> data[i] != NEWLINE
    ensures n > 0 && data[n - 1] != NEWLINE ==> n == |data|
  {
    if data == [] then 0
    else if data[0] == NEWLINE then 1
    else 1 + LineEnd(data[1..])
  }

  /** Plain splitting: every line with its newline. */
  function SplitLines(data: bytes): seq<bytes>
    decreases |data|
  {
    if data == [] then [] else [data[..LineEnd(data)]] + SplitLines(data[LineEnd(data)..])
  }

  function FrameOf(line: bytes): Frame {
    if |line| > MAX_REQUEST_BYTES then Oversized
    else
      match Decode(line)
      case None => NotUtf8
      case Some(text) => Line(text)
  }

  function FramesOf(lines: seq<bytes>): (frames: seq<Frame>)
    ensures |frames| == |lines|
  {
    if lines == [] then [] else [FrameOf(lines[0])] + FramesOf(lines[1..])
  }

  /** A binary stream; `ReadLine` is `readline(limit)`. */
  class Stream {
    const data: bytes
    var position: nat

    ghost predicate Valid()
      reads this
    {
      position <= |data|
    }

    ghost function Remaining(): bytes
      requires Valid()
      reads this
    {
      data[position..]
    }

    constructor (data: bytes)
      ensures Valid() && Remaining() == data
    {
      this.data := data;
      position := 0;
    }

    method ReadLine(limit: nat) returns (chunk: bytes)
      requires Valid()
      modifies this
      ensures Valid()
      ensures chunk == Chunk(old(Remaining()), limit)
      ensures Remaining() == old(Remaining())[|chunk|..]
    {
      var rest := data[position..];
      chunk := Chunk(rest, limit);
      assert rest[|chunk|..] == data[position + |chunk|..];
      position := position + |chunk|;
    }
  }

  predicate EndsLine(chunk: bytes) {
    chunk != [] && chunk[|chunk| - 1] == NEWLINE
  }

  lemma {:induction false} LineEndInside(data: bytes, k: nat)
    requires k < LineEnd(data)
    ensures LineEnd(data[k..]) == LineEnd(data) - k
  {
    if k > 0 {
      assert data[0] != NEWLINE;
      LineEndInside(data[1..], k - 1);
      assert data[1..][k - 1..] == data[k..];
    }
  }

  lemma SplitFirst(data: bytes)
    requires data != []
    ensures FramesOf(SplitLines(data)) ==
      [FrameOf(data[..LineEnd(data)])] + FramesOf(SplitLines(data[LineEnd(data)..]))
  {
    hide FrameOf;
    var line, rest := data[..LineEnd(data)], SplitLines(data[LineEnd(data)..]);
    assert ([line] + rest)[1..] == rest;
  }

  function Chunk(rest: bytes, limit: nat): (chunk: bytes)
    ensures chunk <= rest
  {
    var n := LineEnd(rest);
    rest[..if n <= limit then n else limit]
  }

  lemma Slices(whole: bytes, done: nat, k: nat)
    requires 0 < k && done + k <= |whole|
    ensures whole[done..][..k] == whole[done..done + k] && whole[done..][k..] == whole[done + k..]
    ensures whole[done..][..k][k - 1] == whole[done + k - 1]
  {
  }

  /** One bounded read inside a line: it stays in the line, and ends it only at its newline. */
  lemma ChunkInLine(whole: bytes, done: nat, limit: nat)
    requires done < LineEnd(whole) && limit > 0
    ensures var chunk, end := Chunk(whole[done..], limit), LineEnd(whole);
      && chunk != [] && done + |chunk| <= end
      && whole[done..][|chunk|..] == whole[done + |chunk|..]
      && (EndsLine(chunk) ==> done + |chunk| == end)
      && (!EndsLine(chunk) && done + |chunk| == end ==> end == |whole|)
      && (done + |chunk| < end ==> |chunk| == limit)
      && chunk == whole[done..done + |chunk|]
  {
    hide LineEnd;
    LineEndInside(whole, done);
    var rest, end := whole[done..], LineEnd(whole);
    var k := if end - done <= limit then end - done else limit;
    Slices(whole, done, k);
    assert Chunk(rest, limit) == rest[..k];
  }

  lemma ChunkAtEnd(whole: bytes, limit: nat)
    ensures Chunk(whole[|whole|..], limit) == []
    ensures whole[|whole|..][0..] == whole[|whole|..]
  {
  }

  /**
   Reads on until the line that `chunk` starts is over, dropping what it reads: the inner loop
   of the reader. Nothing of the next line is lost or merged.
   */
  method Drain(stream: Stream, first: bytes, ghost whole: bytes)
    requires stream.Valid() && first != [] && !EndsLine(first)
    requires |first| <= LineEnd(whole) && stream.Remaining() == whole[|first|..]
    requires |first| == LineEnd(whole) ==> LineEnd(whole) == |whole|
    modifies stream
    ensures stream.Valid() && stream.Remaining() == whole[LineEnd(whole)..]
  {
    hide LineEnd, Chunk, EndsLine;
    var chunk := first;
    ghost var done := |first|;
    while chunk != [] && !EndsLine(chunk)
      invariant stream.Valid()
      invariant done <= LineEnd(whole) <= |whole| && stream.Remaining() == whole[done..]
      invariant chunk != [] && !EndsLine(chunk) ==> (done == LineEnd(whole) ==> done == |whole|)
      invariant chunk == [] || EndsLine(chunk) ==> done == LineEnd(whole)
      decreases LineEnd(whole) - done, |chunk|
    {
      if done < LineEnd(whole) {
        ChunkInLine(whole, done, MAX_REQUEST_BYTES + 1);
      } else {
        ChunkAtEnd(whole, MAX_REQUEST_BYTES + 1);
      }
      chunk := stream.ReadLine(MAX_REQUEST_BYTES + 1);
      done := done + |chunk|;
    }
  }

  /** One iteration of the reader: the frame of the next line, or `None` at the end of the stream. */
  method NextFrame(stream: Stream) returns (frame: Option<Frame>)
    requires stream.Valid()
    modifies stream
    ensures stream.Valid()
    ensures var whole := old(stream.Remaining());
      if whole == [] then frame.None? && stream.Remaining() == []
      else frame == Some(FrameOf(whole[..LineEnd(whole)])) && stream.Remaining() == whole[LineEnd(whole)..]
  {
    hide LineEnd, Chunk, EndsLine, Decode;
    ghost var whole := stream.Remaining();
    var chunk := stream.ReadLine(MAX_REQUEST_BYTES + 1);
    ChunkOfNothing(whole, MAX_REQUEST_BYTES + 1);
    if chunk == [] {
      return None;
    }
    assert whole[0..] == whole;
    ChunkInLine(whole, 0, MAX_REQUEST_BYTES + 1);
    var oversized := |chunk| > MAX_REQUEST_BYTES;
    if !EndsLine(chunk) && |chunk| == MAX_REQUEST_BYTES + 1 {
      oversized := true;
      Drain(stream, chunk, whole);
    }
    if oversized {
      return Some(Oversized);
    }
    assert chunk == whole[..LineEnd(whole)];
    var decoded := Decode(chunk);
    if decoded.None? {
      return Some(NotUtf8);
    }
    return Some(Line(decoded.value));
  }

  /** The bounded reader refines plain newline splitting, for every byte stream. */
  method BoundedRequestLines(stream: Stream) returns (frames: seq<Frame>)
    requires stream.Valid()
    modifies stream
    ensures frames == FramesOf(SplitLines(old(stream.Remaining())))
    ensures stream.Valid() && stream.Remaining() == []
  {
    hide LineEnd, FrameOf, FramesOf, SplitLines;
    frames := [];
    NoFrames();
    while true
      invariant stream.Valid()
      invariant FramesOf(SplitLines(old(stream.Remaining()))) ==
        frames + FramesOf(SplitLines(stream.Remaining()))
      decreases |stream.Remaining()|
    {
      ghost var whole := stream.Remaining();
      var frame := NextFrame(stream);
      if frame.None? {
        NoFrames();
        return;
      }
      SplitFirst(whole);
      frames := frames + [frame.value];
    }
  }

  lemma NoFrames()
    ensures FramesOf(SplitLines([])) == []
  {
  }

  lemma ChunkOfNothing(whole: bytes, limit: nat)
    requires limit > 0
    ensures Chunk(whole, limit) == [] <==> whole == []
    ensures whole != [] ==> LineEnd(whole) > 0
  {
  }
}
