/** The WMMM message layer of src/wmmm.cpp: a message id, three reserved bytes, a payload. */
module Wmmm {
  import opened Wrappers
  import opened Bytes

  const HEADER: nat := 4

  type Reserved = s: seq<byte> | |s| == 3 witness [0, 0, 0]

  const NO_RESERVED: Reserved := [0, 0, 0]

  datatype Frame = Frame(msgId: byte, reserved: Reserved, payload: seq<byte>)

  function Layout(f: Frame): (s: seq<byte>)
    ensures |s| == HEADER + |f.payload|
  {
    [f.msgId] + f.reserved + f.payload
  }

  function FrameOf(data: seq<byte>): Option<Frame> {
    if |data| < HEADER then None
    else Some(Frame(data[0], data[1..4], data[4..]))
  }

  /** `Encoder::encode` */
  method Encode(frame: Frame) returns (data: seq<byte>)
    ensures data == Layout(frame)
  {
    data := [];
    data := data + [frame.msgId];
    data := data + [frame.reserved[0]];
    data := data + [frame.reserved[1]];
    data := data + [frame.reserved[2]];
    data := data + frame.payload;
  }

  /** `Decoder::decode` */
  method Decode(data: seq<byte>) returns (frame: Option<Frame>)
    ensures frame == FrameOf(data)
  {
    if |data| < 4 {
      return None;
    }
    var msgId := data[0];
    var reserved := [data[1], data[2], data[3]];
    var payload := data[4..];
    assert reserved == data[1..4];
    return Some(Frame(msgId, reserved, payload));
  }

  /** Layout and parsing are inverse in both directions; only short buffers are refused. */
  lemma Inverse(f: Frame, data: seq<byte>)
    ensures FrameOf(Layout(f)) == Some(f)
    ensures FrameOf(data) == None <==> |data| < HEADER
    ensures FrameOf(data).Some? ==> Layout(FrameOf(data).value) == data
  {
    var s := Layout(f);
    assert s[1..4] == f.reserved;
    assert s[4..] == f.payload;
    if |data| >= HEADER {
      assert data == [data[0]] + data[1..4] + data[4..];
    }
  }
}
