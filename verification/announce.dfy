/** The announce protocol, sendFileList in main.go: a 4-byte big-endian
    length, then every catalog line verbatim, with nothing in between and
    nothing after. */
module Announce {
  import opened Strings
  import opened Wrappers
  import opened Binary

  /** The io.Writer the list is written to (the open TCP connection): every
      byte handed to Write is appended to `written`. Writes never fail. */
  class Sink {
    var written: seq<byte>

    constructor ()
      ensures written == []
    {
      written := [];
    }

    method Write(p: array<byte>)
      modifies this
      ensures written == old(written) + p[..]
    {
      written := written + p[..];
    }
  }

  /** The bytes of one announcement: the header holding
      `uint32(fileListLength)`, then the lines in list order. */
  function Frame(fileList: seq<seq<byte>>, fileListLength: int): seq<byte>
  {
    BigEndian(Uint32Of(fileListLength)) + Concat(fileList)
  }

  /** sendFileList: writes a fresh 4-byte buffer holding the length, then a
      fresh copy of each line; what reaches the sink is exactly the frame. */
  method SendFileList(out: Sink, fileList: seq<seq<byte>>, fileListLength: int)
    modifies out
    ensures out.written == old(out.written) + Frame(fileList, fileListLength)
  {
    var buf := new byte[4];
    PutUint32(buf, Uint32Of(fileListLength));
    assert buf[..] == buf[..4];
    out.Write(buf);
    var i := 0;
    while i < |fileList|
      invariant 0 <= i <= |fileList|
      invariant out.written == old(out.written) + BigEndian(Uint32Of(fileListLength)) + Concat(fileList[..i])
    {
      var path := fileList[i];
      buf := new byte[|path|];
      forall k | 0 <= k < buf.Length {
        buf[k] := path[k];
      }
      assert buf[..] == path;
      ConcatAppend(fileList[..i], [path]);
      assert fileList[..i + 1] == fileList[..i] + [path];
      assert Concat([path]) == path + Concat([]);
      out.Write(buf);
      i := i + 1;
    }
    assert fileList[..i] == fileList;
  }

  /** An announcement is four bytes longer than the lines it carries. */
  lemma FrameLength(fileList: seq<seq<byte>>, fileListLength: int)
    ensures |Frame(fileList, fileListLength)| == 4 + TotalLength(fileList)
  {
    ConcatLength(fileList);
  }

  /** An empty catalog with length 0 is announced as four zero bytes. */
  lemma EmptyFrame()
    ensures Frame([], 0) == [0, 0, 0, 0]
  {
  }

  /** What a receiver does: read the 4-byte big-endian length, then exactly
      that many bytes; a stream that ends early is incomplete. */
  function Receive(stream: seq<byte>): Option<seq<byte>>
  {
    if |stream| < 4 then None
    else
      var n := Uint32(stream[..4]);
      if |stream| - 4 < n then None else Some(stream[4..4 + n])
  }

  /** When the header holds the true total length (below 2^32), a receiver
      gets back exactly the concatenated lines, whatever follows them. */
  lemma ReceiveFrame(fileList: seq<seq<byte>>, rest: seq<byte>)
    requires TotalLength(fileList) < TWO_TO_32
    ensures Receive(Frame(fileList, TotalLength(fileList)) + rest) == Some(Concat(fileList))
  {
    var f := Frame(fileList, TotalLength(fileList)) + rest;
    ConcatLength(fileList);
    assert f[..4] == BigEndian(TotalLength(fileList));
    assert f[4..4 + TotalLength(fileList)] == Concat(fileList);
  }

  /** Lines without their newline. */
  function Unterminated(lines: seq<seq<byte>>): (r: seq<seq<byte>>)
    requires forall k :: 0 <= k < |lines| ==> IsLine(lines[k])
    ensures |r| == |lines|
    ensures forall k :: 0 <= k < |r| ==> lines[k] == r[k] + [NEWLINE] && NEWLINE !in r[k]
  {
    if lines == [] then []
    else
      var first := lines[0];
      assert IsLine(first);
      assert first == first[..|first| - 1] + [NEWLINE];
      [first[..|first| - 1]] + Unterminated(lines[1..])
  }

  lemma {:induction false} ConcatIsJoin(lines: seq<seq<byte>>)
    requires forall k :: 0 <= k < |lines| ==> IsLine(lines[k])
    ensures Concat(lines) == Join(Unterminated(lines) + [[]], NEWLINE)
  {
    if lines != [] {
      ConcatIsJoin(lines[1..]);
      var u := Unterminated(lines);
      assert u + [[]] == [u[0]] + (Unterminated(lines[1..]) + [[]]);
      assert (u + [[]])[1..] == Unterminated(lines[1..]) + [[]];
    }
  }

  /** Cutting the received bytes at newlines gives the announced lines back,
      with the empty piece after the final newline. */
  lemma SplitConcat(lines: seq<seq<byte>>)
    requires forall k :: 0 <= k < |lines| ==> IsLine(lines[k])
    ensures Split(Concat(lines), NEWLINE) == Unterminated(lines) + [[]]
  {
    ConcatIsJoin(lines);
    var pieces := Unterminated(lines) + [[]];
    forall i | 0 <= i < |pieces|
      ensures NEWLINE !in pieces[i]
    {
      if i < |lines| {
        assert pieces[i] == Unterminated(lines)[i];
      }
    }
    SplitJoin(pieces, NEWLINE);
  }
}
