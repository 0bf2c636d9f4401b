/**
 `decodeStream` of `internal/dockerapi/client.go`: taking apart a multiplexed
 container log.  A frame is four bytes that name the stream, the length of the
 payload in four more, and the payload.
 */
module StreamDemux {
  import opened Octets

  const MAX_FRAME := 0x100_0000

  datatype Frame = Frame(stream: seq<Octet>, payload: seq<Octet>)

  ghost predicate WellFormed(f: Frame) {
    |f.stream| == 4 && |f.payload| <= MAX_FRAME
  }

  ghost function Encode(f: Frame): seq<Octet> {
    f.stream + BigEndian(|f.payload|, 4) + f.payload
  }

  ghost function EncodeAll(fs: seq<Frame>): seq<Octet> {
    if fs == [] then [] else Encode(fs[0]) + EncodeAll(fs[1..])
  }

  ghost function Payloads(fs: seq<Frame>): seq<Octet> {
    if fs == [] then [] else fs[0].payload + Payloads(fs[1..])
  }

  /** The declared length of the frame at `off`. */
  function Declared(data: seq<Octet>, off: nat): nat
    requires off + 8 <= |data|
  {
    FromBigEndian(data, off + 4, 4)
  }

  /** At `off` the data ends inside a header, or inside a payload of an acceptable length. */
  ghost predicate Incomplete(data: seq<Octet>, off: nat) {
    off + 8 > |data| || (Declared(data, off) <= MAX_FRAME && off + 8 + Declared(data, off) > |data|)
  }

  /** At `off` stands the header of a frame that is too large. */
  ghost predicate Oversized(data: seq<Octet>, off: nat) {
    off + 8 <= |data| && Declared(data, off) > MAX_FRAME
  }

  /** What the loop returns from offset `off` on, having written `out`. */
  ghost function Walk(data: seq<Octet>, off: nat, out: seq<Octet>): seq<Octet>
    decreases if off <= |data| then |data| - off else 0
  {
    if off + 8 > |data| then out
    else if Declared(data, off) > MAX_FRAME then data
    else if off + 8 + Declared(data, off) > |data| then out
    else
      var end := off + 8 + Declared(data, off);
      Walk(data, end, out + data[off + 8..end])
  }

  predicate Raw(data: seq<Octet>) {
    |data| < 8 || data[0] > 2
  }

  method DecodeStream(data: seq<Octet>) returns (s: seq<Octet>)
    ensures s == if Raw(data) then data else Walk(data, 0, [])
  {
    if |data| < 8 || data[0] > 2 {
      return data;
    }
    s := [];
    var position := 0;
    while true
      invariant position <= |data|
      invariant Walk(data, position, s) == Walk(data, 0, [])
      decreases |data| - position
    {
      if |data| - position < 8 {
        break;
      }
      var n := FromBigEndian(data, position + 4, 4);
      if n > MAX_FRAME {
        return data;
      }
      if |data| - position - 8 < n {
        break;
      }
      s := s + data[position + 8..position + 8 + n];
      position := position + 8 + n;
    }
  }

  // ----- Frames in, payloads out -----

  lemma FrameAt(data: seq<Octet>, off: nat, f: Frame)
    requires WellFormed(f) && Occurs(data, off, Encode(f))
    ensures off + 8 + |f.payload| <= |data|
    ensures Declared(data, off) == |f.payload|
    ensures data[off + 8..off + 8 + |f.payload|] == f.payload
  {
    OccursConcat(data, off, f.stream + BigEndian(|f.payload|, 4), f.payload);
    OccursConcat(data, off, f.stream, BigEndian(|f.payload|, 4));
    assert Limit(4) == 0x1_0000_0000 by {
      assert Limit(2) == 0x1_0000;
    }
    ReadBigEndian(data, off + 4, 4, |f.payload|);
  }

  /** The loop passes over well-formed frames and collects their payloads. */
  lemma {:induction false} WalkFrames(data: seq<Octet>, off: nat, fs: seq<Frame>, out: seq<Octet>)
    requires (forall i :: 0 <= i < |fs| ==> WellFormed(fs[i])) && Occurs(data, off, EncodeAll(fs))
    ensures Walk(data, off, out) == Walk(data, off + |EncodeAll(fs)|, out + Payloads(fs))
    decreases fs
  {
    if fs == [] {
      assert out + [] == out;
    } else {
      var f := fs[0];
      OccursConcat(data, off, Encode(f), EncodeAll(fs[1..]));
      FrameAt(data, off, f);
      WalkFrames(data, off + |Encode(f)|, fs[1..], out + f.payload);
      assert out + f.payload + Payloads(fs[1..]) == out + (f.payload + Payloads(fs[1..]));
    }
  }

  /** Demultiplexing a non-empty list of frames and whatever part of another frame follows
      gives the payloads, unless a frame that is too large follows. */
  lemma Demultiplex(data: seq<Octet>, fs: seq<Frame>)
    requires fs != [] && (forall i :: 0 <= i < |fs| ==> WellFormed(fs[i]))
    requires WellFormed(fs[0]) && fs[0].stream[0] <= 2
    requires Occurs(data, 0, EncodeAll(fs))
    ensures !Raw(data)
    ensures Incomplete(data, |EncodeAll(fs)|) ==> Walk(data, 0, []) == Payloads(fs)
    ensures Oversized(data, |EncodeAll(fs)|) ==> Walk(data, 0, []) == data
  {
    WalkFrames(data, 0, fs, []);
    assert [] + Payloads(fs) == Payloads(fs);
    OccursConcat(data, 0, Encode(fs[0]), EncodeAll(fs[1..]));
    OccursConcat(data, 0, fs[0].stream + BigEndian(|fs[0].payload|, 4), fs[0].payload);
    OccursConcat(data, 0, fs[0].stream, BigEndian(|fs[0].payload|, 4));
    assert data[0 + 0] == fs[0].stream[0];
  }

  /** A complete frame of an acceptable length is the encoding of one. */
  lemma FrameFound(data: seq<Octet>, off: nat) returns (f: Frame)
    requires off + 8 <= |data| && Declared(data, off) <= MAX_FRAME && off + 8 + Declared(data, off) <= |data|
    ensures WellFormed(f) && Occurs(data, off, Encode(f)) && |f.payload| == Declared(data, off)
    ensures f.payload == data[off + 8..off + 8 + Declared(data, off)]
  {
    var n := Declared(data, off);
    f := Frame(data[off..off + 4], data[off + 8..off + 8 + n]);
    BigEndianRead(data, off + 4, 4);
    OccursConcat(data, off, f.stream, BigEndian(n, 4));
    OccursConcat(data, off, f.stream + BigEndian(n, 4), f.payload);
  }

  /** The data from `off` on begins with well-formed frames, behind which it is incomplete
      or a frame is too large. */
  lemma {:induction false} Dissect(data: seq<Octet>, off: nat) returns (fs: seq<Frame>)
    requires off <= |data|
    ensures (forall i :: 0 <= i < |fs| ==> WellFormed(fs[i])) && Occurs(data, off, EncodeAll(fs))
    ensures Incomplete(data, off + |EncodeAll(fs)|) || Oversized(data, off + |EncodeAll(fs)|)
    decreases |data| - off
  {
    if Incomplete(data, off) || Oversized(data, off) {
      fs := [];
    } else {
      var f := FrameFound(data, off);
      var rest := Dissect(data, off + 8 + |f.payload|);
      fs := [f] + rest;
      assert fs[1..] == rest;
      OccursConcat(data, off, Encode(f), EncodeAll(rest));
    }
  }

  /** All inputs: what the loop returns is decided by the frames the data begins with and
      by what follows them. */
  lemma EveryInput(data: seq<Octet>) returns (fs: seq<Frame>)
    ensures (forall i :: 0 <= i < |fs| ==> WellFormed(fs[i])) && Occurs(data, 0, EncodeAll(fs))
    ensures Incomplete(data, |EncodeAll(fs)|) <==> !Oversized(data, |EncodeAll(fs)|)
    ensures Walk(data, 0, []) == if Oversized(data, |EncodeAll(fs)|) then data else Payloads(fs)
  {
    fs := Dissect(data, 0);
    WalkFrames(data, 0, fs, []);
    assert [] + Payloads(fs) == Payloads(fs);
  }
}
