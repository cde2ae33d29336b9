/**
 * The live video feed: pull a frame from the camera manager, colour-convert
 * and JPEG-encode it, and push it as one part of a multipart stream, until
 * the manager reports no frame. The frames the manager returns on
 * successive calls are an input sequence, and the encoder (colour
 * conversion followed by JPEG encoding) is an abstract function that may
 * fail.
 */
module Streaming {
  import opened Wrappers
  import opened Camera

  /** Colour conversion and JPEG encoding: the encoded bytes, or None when encoding fails. */
  type Encoder = Frame -> Option<seq<Byte>>

  function Ascii(s: string): (b: seq<Byte>)
    requires forall i :: 0 <= i < |s| ==> s[i] as int < 256
    ensures |b| == |s|
  {
    seq(|s|, i requires 0 <= i < |s| => s[i] as int as Byte)
  }

  /** The part header that opens every chunk of the multipart stream. */
  const PartHeader: seq<Byte> := Ascii("--frame\r\nContent-Type: image/jpeg\r\n\r\n")

  const Crlf: seq<Byte> := Ascii("\r\n")

  /** One chunk of the stream: the part header, the encoded image, CRLF. */
  function Chunk(jpeg: seq<Byte>): seq<Byte>
  {
    PartHeader + jpeg + Crlf
  }

  /** The encoded image a well-framed chunk carries, or None for anything else. */
  function Unframe(c: seq<Byte>): Option<seq<Byte>>
  {
    if |c| >= |PartHeader| + |Crlf| && c[..|PartHeader|] == PartHeader && c[|c| - |Crlf|..] == Crlf
    then Some(c[|PartHeader|..|c| - |Crlf|])
    else None
  }

  /** Unframing a chunk gives back the image it was made from. */
  lemma UnframeChunk(jpeg: seq<Byte>)
    ensures Unframe(Chunk(jpeg)) == Some(jpeg)
  {
    var c := Chunk(jpeg);
    assert c[..|PartHeader|] == PartHeader;
    assert c[|c| - |Crlf|..] == Crlf;
    assert c[|PartHeader|..|c| - |Crlf|] == jpeg;
  }

  /** The chunks the feed yields for the given successive frame results. */
  function Stream(frames: seq<Option<Frame>>, encode: Encoder): seq<seq<Byte>>
  {
    if frames == [] then []
    else match frames[0]
      case None => []
      case Some(f) =>
        match encode(f)
        case None => Stream(frames[1..], encode)
        case Some(jpeg) => [Chunk(jpeg)] + Stream(frames[1..], encode)
  }

  /**
   * The feed loop: for each frame result in turn, stop at an absent frame,
   * skip a frame that fails to encode, and otherwise yield its chunk. The
   * loop ends at the first absence or when the input runs out.
   */
  method GenerateFrames(frames: seq<Option<Frame>>, encode: Encoder) returns (chunks: seq<seq<Byte>>)
    ensures chunks == Stream(frames, encode)
    ensures |chunks| <= AvailableFrames(frames)
  {
    chunks := [];
    var i := 0;
    while i < |frames|
      invariant 0 <= i <= |frames|
      invariant Stream(frames, encode) == chunks + Stream(frames[i..], encode)
    {
      var frame := frames[i];
      assert frames[i..][1..] == frames[i + 1..];
      i := i + 1;
      if frame.Some? {
        var encoded := encode(frame.value);
        if encoded.None? {
          continue;
        }
        chunks := chunks + [Chunk(encoded.value)];
      } else {
        break;
      }
    }
    StreamLength(frames, encode);
  }

  /** No frame after the first absence contributes: the stream ignores everything from it on. */
  lemma {:induction false} StreamStopsAtAbsence(p: seq<Option<Frame>>, q: seq<Option<Frame>>, encode: Encoder)
    ensures Stream(p + [None] + q, encode) == Stream(p, encode)
  {
    if p == [] {
      assert (p + [None] + q)[0] == None;
    } else {
      assert (p + [None] + q)[1..] == p[1..] + [None] + q;
      StreamStopsAtAbsence(p[1..], q, encode);
    }
  }

  /** Over a run of present frames the stream is the concatenation of the streams of its parts. */
  lemma {:induction false} StreamAppend(p: seq<Option<Frame>>, q: seq<Option<Frame>>, encode: Encoder)
    requires forall j :: 0 <= j < |p| ==> p[j].Some?
    ensures Stream(p + q, encode) == Stream(p, encode) + Stream(q, encode)
  {
    if p == [] {
      assert p + q == q;
    } else {
      assert (p + q)[1..] == p[1..] + q;
      assert (p + q)[0] == p[0];
      StreamAppend(p[1..], q, encode);
    }
  }

  /** A frame that fails to encode is skipped and the stream goes on with the next one. */
  lemma StreamSkipsFailedEncode(p: seq<Option<Frame>>, f: Frame, q: seq<Option<Frame>>, encode: Encoder)
    requires forall j :: 0 <= j < |p| ==> p[j].Some?
    requires encode(f).None?
    ensures Stream(p + [Some(f)] + q, encode) == Stream(p, encode) + Stream(q, encode)
  {
    assert p + [Some(f)] + q == p + ([Some(f)] + q);
    StreamAppend(p, [Some(f)] + q, encode);
    assert ([Some(f)] + q)[1..] == q;
  }

  /** The stream has at most one chunk per frame before the first absence. */
  lemma {:induction false} StreamLength(frames: seq<Option<Frame>>, encode: Encoder)
    ensures |Stream(frames, encode)| <= AvailableFrames(frames)
  {
    if frames != [] && frames[0].Some? {
      StreamLength(frames[1..], encode);
    }
  }

  /**
   * Every chunk is a well-framed part whose image is the encoding of a
   * frame that came before the first absence.
   */
  lemma {:induction false} StreamChunksFramed(frames: seq<Option<Frame>>, encode: Encoder)
    ensures forall k :: 0 <= k < |Stream(frames, encode)| ==>
      Unframe(Stream(frames, encode)[k]).Some? &&
      exists j :: 0 <= j < AvailableFrames(frames) && frames[j].Some? && encode(frames[j].value) == Unframe(Stream(frames, encode)[k])
  {
    if frames != [] && frames[0].Some? {
      var rest := Stream(frames[1..], encode);
      StreamChunksFramed(frames[1..], encode);
      var r := Stream(frames, encode);
      forall k | 0 <= k < |r|
        ensures Unframe(r[k]).Some?
        ensures exists j :: 0 <= j < AvailableFrames(frames) && frames[j].Some? && encode(frames[j].value) == Unframe(r[k])
      {
        var f := frames[0].value;
        if encode(f).Some? && k == 0 {
          UnframeChunk(encode(f).value);
          assert encode(frames[0].value) == Unframe(r[k]);
        } else {
          var k' := if encode(f).Some? then k - 1 else k;
          assert r[k] == rest[k'];
          var j' :| 0 <= j' < AvailableFrames(frames[1..]) && frames[1..][j'].Some? && encode(frames[1..][j'].value) == Unframe(rest[k']);
          assert frames[j' + 1] == frames[1..][j'];
        }
      }
    }
  }
}
