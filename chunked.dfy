/**
 * The chunked frame writer of smaller_kitty.c (`serialize_gr_command` and
 * `write_chunked`).
 *
 * Every frame is an APC string of ECMA-48 (section 8.3.2): `ESC _ G`, the
 * command, `;` and the payload when there is one, and `ESC \`. The encoded
 * image is cut into payloads of at most `ChunkSize` characters; the first
 * command carries the caller's parameters, and every command carries `m=1`
 * when more data follows and `m=0` otherwise.
 *
 * `FramesFrom` follows the C loop offset by offset; `FrameAt` is the closed
 * form of frame `k`, and `FramesClosedForm` proves that the two agree. The
 * methods write into an `OutStream`, the model of the C `FILE *`: its text
 * and how much of it the last `fflush` delivered.
 */
module Chunked {
  import opened Common
  import opened Base64

  /** `chunk_size` in write_chunked. */
  const ChunkSize: nat := 4096

  const Esc: char := '\U{1B}'

  /** One graphics command: its control data and its (possibly empty) payload. */
  datatype Frame = Frame(cmd: string, payload: string)

  /** The bytes `serialize_gr_command(output, cmd, payload, size)` writes. */
  function Serialize(cmd: string, payload: string): string
  {
    [Esc, '_', 'G'] + cmd + (if |payload| > 0 then [';'] + payload else []) + [Esc, '\\']
  }

  /** The position of the first `c` in `s`, or `|s|` when there is none. */
  function IndexOf(s: string, c: char): (i: nat)
    ensures i <= |s|
    ensures i < |s| ==> s[i] == c
    ensures forall k | 0 <= k < i :: s[k] != c
  {
    if |s| == 0 then 0
    else if s[0] == c then 0
    else 1 + IndexOf(s[1..], c)
  }

  /**
   * Reads a frame back: the text between `ESC _ G` and `ESC \`, split at its
   * first `;` into command and payload. The program has no such reader; it is
   * the partner that shows `Serialize` loses nothing.
   */
  function ParseFrame(r: string): Option<Frame>
  {
    if |r| >= 5 && r[..3] == [Esc, '_', 'G'] && r[|r| - 2..] == [Esc, '\\'] then
      var body := r[3..|r| - 2];
      var i := IndexOf(body, ';');
      if i == |body| then Some(Frame(body, "")) else Some(Frame(body[..i], body[i + 1..]))
    else None
  }

  /** A command without `;` comes back from its frame together with its payload. */
  lemma ParseSerialize(cmd: string, payload: string)
    requires forall k | 0 <= k < |cmd| :: cmd[k] != ';'
    ensures ParseFrame(Serialize(cmd, payload)) == Some(Frame(cmd, payload))
  {
    var r := Serialize(cmd, payload);
    var body := r[3..|r| - 2];
    assert body == cmd + (if |payload| > 0 then [';'] + payload else []);
    var i := IndexOf(body, ';');
    if |payload| > 0 {
      assert body[|cmd|] == ';';
      assert i == |cmd|;
      assert body[..i] == cmd;
      assert body[i + 1..] == payload;
    } else {
      assert body == cmd;
    }
  }

  /** `"%s,m=%d"` on the first frame, `"m=%d"` on the others. */
  function Command(params: string, first: bool, more: bool): string
  {
    (if first then params + "," else "") + "m=" + (if more then "1" else "0")
  }

  /**
   * The frames the loop of write_chunked emits for the encoded text `e`,
   * starting at `offset`: a chunk of `min(4096, remaining)` characters while
   * `offset < |e|`, flagged as followed by more when it does not reach the end.
   */
  function FramesFrom(params: string, e: string, offset: nat): seq<Frame>
    requires offset <= |e|
    decreases |e| - offset
  {
    if offset < |e| then
      var current := Min(ChunkSize, |e| - offset);
      var more := offset + current < |e|;
      [Frame(Command(params, offset == 0, more), e[offset..offset + current])]
        + FramesFrom(params, e, offset + current)
    else []
  }

  /** One turn of the loop: the frame at `offset`, then the frames after it. */
  lemma FramesFromStep(params: string, e: string, offset: nat)
    requires offset < |e|
    ensures var current := Min(ChunkSize, |e| - offset);
      FramesFrom(params, e, offset)
        == [Frame(Command(params, offset == 0, offset + current < |e|), e[offset..offset + current])]
           + FramesFrom(params, e, offset + current)
  {
  }

  /** All frames of one transfer. */
  function Frames(params: string, e: string): seq<Frame>
  {
    FramesFrom(params, e, 0)
  }

  /** How many chunks `n` characters need. */
  function ChunkCount(n: nat): nat
  {
    (n + ChunkSize - 1) / ChunkSize
  }

  /** Frame `k` in closed form: characters `4096 k` up to `4096 (k + 1)` or the end. */
  function FrameAt(params: string, e: string, k: nat): Frame
    requires ChunkSize * k < |e|
  {
    var end := Min(ChunkSize * (k + 1), |e|);
    Frame(Command(params, k == 0, end < |e|), e[ChunkSize * k..end])
  }

  lemma {:induction false} FramesFromAt(params: string, e: string, i: nat)
    requires ChunkSize * i <= |e|
    ensures var fs := FramesFrom(params, e, ChunkSize * i);
      && |fs| == ChunkCount(|e|) - i
      && forall k | 0 <= k < |fs| :: ChunkSize * (i + k) < |e| && fs[k] == FrameAt(params, e, i + k)
    decreases |e| - ChunkSize * i
  {
    var offset := ChunkSize * i;
    var fs := FramesFrom(params, e, offset);
    if offset < |e| {
      ChunkStep(|e|, i);
      var rest := FramesFrom(params, e, offset + Min(ChunkSize, |e| - offset));
      assert fs == [FrameAt(params, e, i)] + rest;
      if ChunkSize * (i + 1) <= |e| {
        FramesFromAt(params, e, i + 1);
        FramesShift(params, e, i, fs, rest);
      } else {
        assert rest == [];
      }
    } else {
      ChunkEnd(|e|, i);
    }
  }

  /** Frame `i` followed by frames `i + 1` onwards are frames `i` onwards. */
  lemma FramesShift(params: string, e: string, i: nat, fs: seq<Frame>, rest: seq<Frame>)
    requires ChunkSize * i < |e| && fs == [FrameAt(params, e, i)] + rest
    requires forall k | 0 <= k < |rest| :: ChunkSize * (i + 1 + k) < |e| && rest[k] == FrameAt(params, e, i + 1 + k)
    ensures forall k | 0 <= k < |fs| :: ChunkSize * (i + k) < |e| && fs[k] == FrameAt(params, e, i + k)
  {
    assert forall k | 1 <= k < |fs| :: fs[k] == rest[k - 1];
  }

  /** A chunk that starts at `4096 i` inside the text ends at the next multiple of 4096 or at the end. */
  lemma ChunkStep(n: nat, i: nat)
    requires ChunkSize * i < n
    ensures ChunkSize * i + Min(ChunkSize, n - ChunkSize * i) == Min(ChunkSize * (i + 1), n)
    ensures ChunkCount(n) >= i + 1
    ensures n < ChunkSize * (i + 1) ==> ChunkCount(n) == i + 1
    ensures ChunkSize * i == 0 <==> i == 0
  {
  }

  /** Text that ends at `4096 i` needs exactly `i` chunks. */
  lemma ChunkEnd(n: nat, i: nat)
    requires ChunkSize * i == n
    ensures ChunkCount(n) == i
  {
  }

  /** The loop emits `ChunkCount(|e|)` frames, frame `k` being `FrameAt(k)`. */
  lemma FramesClosedForm(params: string, e: string)
    ensures var fs := Frames(params, e);
      && |fs| == ChunkCount(|e|)
      && forall k | 0 <= k < |fs| :: ChunkSize * k < |e| && fs[k] == FrameAt(params, e, k)
  {
    FramesFromAt(params, e, 0);
    var fs := Frames(params, e);
    assert fs == FramesFrom(params, e, ChunkSize * 0);
    forall k | 0 <= k < |fs|
      ensures ChunkSize * k < |e| && fs[k] == FrameAt(params, e, k)
    {
      assert 0 + k == k;
    }
  }

  /** The payloads of `fs`, concatenated in order. */
  function Payloads(fs: seq<Frame>): string
  {
    if |fs| == 0 then [] else fs[0].payload + Payloads(fs[1..])
  }

  lemma {:induction false} PayloadsFrom(params: string, e: string, offset: nat)
    requires offset <= |e|
    ensures Payloads(FramesFrom(params, e, offset)) == e[offset..]
    decreases |e| - offset
  {
    var fs := FramesFrom(params, e, offset);
    if offset < |e| {
      var current := Min(ChunkSize, |e| - offset);
      PayloadsFrom(params, e, offset + current);
      assert fs[1..] == FramesFrom(params, e, offset + current);
      assert e[offset..] == e[offset..offset + current] + e[offset + current..];
    }
  }

  /** Concatenating the payloads in order gives back the whole encoded text. */
  lemma PayloadsReassemble(params: string, e: string)
    ensures Payloads(Frames(params, e)) == e
  {
    PayloadsFrom(params, e, 0);
  }

  /** Every payload holds 1 to 4096 characters, and all but the last exactly 4096. */
  lemma ChunkSizes(params: string, e: string)
    ensures var fs := Frames(params, e);
      forall k | 0 <= k < |fs| ::
        && 0 < |fs[k].payload| <= ChunkSize
        && (k < |fs| - 1 ==> |fs[k].payload| == ChunkSize)
  {
    FramesClosedForm(params, e);
    var fs := Frames(params, e);
    forall k | 0 <= k < |fs|
      ensures 0 < |fs[k].payload| <= ChunkSize && (k < |fs| - 1 ==> |fs[k].payload| == ChunkSize)
    {
      if k < |fs| - 1 {
        assert ChunkSize * (k + 1) < |e|;
      }
    }
  }

  /**
   * Only the first command carries the parameters, and a command says `m=1`
   * exactly when a later frame follows: only the last frame says `m=0`.
   */
  lemma ContinuationFlags(params: string, e: string)
    ensures var fs := Frames(params, e);
      forall k | 0 <= k < |fs| :: fs[k].cmd == Command(params, k == 0, k < |fs| - 1)
  {
    FramesClosedForm(params, e);
    var fs := Frames(params, e);
    forall k | 0 <= k < |fs|
      ensures fs[k].cmd == Command(params, k == 0, k < |fs| - 1)
    {
      var end := Min(ChunkSize * (k + 1), |e|);
      if k < |fs| - 1 {
        assert ChunkSize * (k + 1) < |e|;
      } else {
        assert end == |e|;
      }
    }
  }

  /** 6144 bytes encode to 8192 characters, sent as two full frames, `m=1` then `m=0`. */
  lemma TwoFramesFor6144Bytes(params: string, data: seq<byte>)
    requires |data| == 6144
    ensures var fs := Frames(params, Encode(data));
      && |fs| == 2
      && fs[0].cmd == params + ",m=1" && fs[1].cmd == "m=0"
      && |fs[0].payload| == ChunkSize && |fs[1].payload| == ChunkSize
  {
    var e := Encode(data);
    assert |e| == 8192;
    FramesClosedForm(params, e);
    ContinuationFlags(params, e);
    ChunkSizes(params, e);
  }

  /** As written: an empty image encodes to nothing and the loop emits no frame at all. */
  lemma EmptyInputEmitsNoFrame(params: string)
    ensures Frames(params, Encode([])) == []
  {
    assert |Encode([])| == 0;
  }

  /**
   * The transfer that still sends one final frame for an empty payload:
   * the same frames, except that an empty payload gets the single frame
   * `params,m=0` with an empty body.
   */
  function IntendedFrames(params: string, e: string): seq<Frame>
  {
    if |e| == 0 then [Frame(Command(params, true, false), "")] else Frames(params, e)
  }

  /**
   * The intended transfer always has a frame, the first one carries the
   * parameters, only the last says `m=0`, and its payloads reassemble the text.
   */
  lemma IntendedFramesShape(params: string, e: string)
    ensures var fs := IntendedFrames(params, e);
      && |fs| >= 1
      && Payloads(fs) == e
      && forall k | 0 <= k < |fs| :: fs[k].cmd == Command(params, k == 0, k < |fs| - 1)
  {
    if |e| == 0 {
      var fs := IntendedFrames(params, e);
      assert Payloads(fs) == "" + Payloads(fs[1..]);
    } else {
      FramesClosedForm(params, e);
      PayloadsReassemble(params, e);
      ContinuationFlags(params, e);
    }
  }

  /** An empty image gives exactly the frame `ESC _ G params,m=0 ESC \`. */
  lemma IntendedEmptyTransfer(params: string)
    ensures Render(IntendedFrames(params, Encode([]))) == Serialize(params + ",m=0", "")
  {
    assert |Encode([])| == 0;
    var fs := IntendedFrames(params, Encode([]));
    assert Command(params, true, false) == params + ",m=0";
    assert fs == [Frame(params + ",m=0", "")];
    assert Render(fs) == Serialize(params + ",m=0", "") + Render([]);
  }

  /** The text of `fs`, frame after frame. */
  function Render(fs: seq<Frame>): string
  {
    if |fs| == 0 then [] else Serialize(fs[0].cmd, fs[0].payload) + Render(fs[1..])
  }

  lemma RenderCons(f: Frame, fs: seq<Frame>)
    ensures Render([f] + fs) == Serialize(f.cmd, f.payload) + Render(fs)
  {
    assert ([f] + fs)[1..] == fs;
  }

  /** Writing one more frame moves it from the frames still to come to the text. */
  lemma TextStep(text0: string, f: Frame, rest: seq<Frame>)
    ensures text0 + Render([f] + rest) == (text0 + Serialize(f.cmd, f.payload)) + Render(rest)
  {
    RenderCons(f, rest);
  }

  /** The output stream: everything written to it, and how much of that has been flushed. */
  class OutStream {
    var text: string
    var flushed: nat

    constructor ()
      ensures text == [] && flushed == 0
    {
      text := [];
      flushed := 0;
    }

    /** `fprintf` / `fputc` / `fwrite`: appends `s`. */
    method Put(s: string)
      modifies this
      ensures text == old(text) + s && flushed == old(flushed)
    {
      text := text + s;
    }

    /** `fflush`: everything written so far has been delivered. */
    method Flush()
      modifies this
      ensures text == old(text) && flushed == |text|
    {
      flushed := |text|;
    }
  }

  /** `serialize_gr_command`: writes one frame and flushes it. */
  method SerializeGrCommand(output: OutStream, cmd: string, payload: string)
    modifies output
    ensures output.text == old(output.text) + Serialize(cmd, payload)
    ensures output.flushed == |output.text|
  {
    output.Put([Esc, '_', 'G'] + cmd);
    if |payload| > 0 {
      output.Put([';']);
      output.Put(payload);
    }
    output.Put([Esc, '\\']);
    output.Flush();
  }

  /**
   * `write_chunked(output, data, size, params)`: encodes `data` into a fresh
   * buffer of `4 * ((n + 2) / 3) + 1` characters and writes the frames of
   * the encoded text, each one flushed.
   */
  method WriteChunked(output: OutStream, data: seq<byte>, params: string)
    modifies output
    ensures output.text == old(output.text) + Render(Frames(params, Encode(data)))
    ensures output.flushed == if |data| == 0 then old(output.flushed) else |output.text|
  {
    var encodedSize := 4 * ((|data| + 2) / 3);
    var encoded := new char[encodedSize + 1];
    var written := EncodeInto(data, encoded);
    encoded[encodedSize] := '\0';
    ghost var e := encoded[..encodedSize];
    assert e == Encode(data);
    var offset := 0;
    while offset < encodedSize
      invariant offset <= encodedSize
      invariant encoded[..encodedSize] == e
      invariant old(output.text) + Render(Frames(params, e)) == output.text + Render(FramesFrom(params, e, offset))
      invariant output.flushed == if offset == 0 then old(output.flushed) else |output.text|
      decreases encodedSize - offset
    {
      offset := SendChunk(output, encoded, encodedSize, offset, params, e);
    }
  }

  /**
   * One turn of the loop of write_chunked: the chunk of at most 4096
   * characters at `offset`, written as one frame; returns the next offset.
   */
  method SendChunk(output: OutStream, encoded: array<char>, encodedSize: nat, offset: nat, params: string, ghost e: string)
    returns (next: nat)
    requires encodedSize <= encoded.Length && encoded[..encodedSize] == e && offset < encodedSize
    modifies output
    ensures offset < next <= encodedSize
    ensures output.text + Render(FramesFrom(params, e, next)) == old(output.text) + Render(FramesFrom(params, e, offset))
    ensures output.flushed == |output.text|
  {
    var remaining := encodedSize - offset;
    var current := if remaining > ChunkSize then ChunkSize else remaining;
    var more := offset + current < encodedSize;
    var cmd := Command(params, offset == 0, more);
    var payload := encoded[offset..offset + current];
    ghost var f := Frame(cmd, payload);
    ghost var rest := FramesFrom(params, e, offset + current);
    assert FramesFrom(params, e, offset) == [f] + rest by {
      FramesFromStep(params, e, offset);
      assert |e| == encodedSize && current == Min(ChunkSize, |e| - offset);
      assert payload == encoded[..encodedSize][offset..offset + current];
    }
    ghost var text0 := output.text;
    SerializeGrCommand(output, cmd, payload);
    TextStep(text0, f, rest);
    next := offset + current;
  }
}
