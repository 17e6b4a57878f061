/**
 * KISS framing (the host-to-TNC protocol of Chepponis and Karn, 1987):
 * FEND, a command byte, the frame with FEND and FESC made transparent, FEND.
 */
module Kiss {
  import opened Bytes
  import opened Wrappers

  const FEND: Byte := 0xC0      // frame delimiter
  const FESC: Byte := 0xDB      // escape
  const TFEND: Byte := 0xDC     // transposed FEND, follows FESC
  const TFESC: Byte := 0xDD     // transposed FESC, follows FESC
  const CMD_DATA: Byte := 0x00  // data frame on port 0

  /**
   * What one data byte becomes inside a KISS frame: never a raw FEND, and two
   * octets exactly for FEND and FESC.
   */
  function Escape(b: Byte): (r: seq<Byte>)
    ensures 1 <= |r| <= 2 && r[0] != FEND
    ensures |r| == 2 <==> b == FEND || b == FESC
  {
    if b == FEND then [FESC, TFEND] else if b == FESC then [FESC, TFESC] else [b]
  }

  /** Unescaping the escape of one byte gives that byte back. */
  lemma EscapeUnstuff(b: Byte)
    ensures Unstuff(Escape(b)) == Some([b])
  {
    var e := Escape(b);
    assert e[|e|..] == [] && [b] + [] == [b];
  }

  /** No raw FEND in `s`, and every FESC in `s` opens a complete escape. */
  predicate Transparent(s: seq<Byte>)
  {
    (forall i :: 0 <= i < |s| ==> s[i] != FEND) &&
    (forall i :: 0 <= i < |s| && s[i] == FESC ==> i + 1 < |s| && (s[i + 1] == TFEND || s[i + 1] == TFESC))
  }

  /** The escaped body of a KISS frame: each data byte replaced by its escape. */
  function Stuff(data: seq<Byte>): (r: seq<Byte>)
    ensures |r| == |data| + Count(data, FEND) + Count(data, FESC)
  {
    if data == [] then [] else Escape(data[0]) + Stuff(data[1..])
  }

  /** The escaped body never holds a raw FEND, and each FESC in it opens an escape. */
  lemma {:induction false} StuffTransparent(data: seq<Byte>)
    ensures Transparent(Stuff(data))
  {
    if data != [] {
      StuffTransparent(data[1..]);
      var e, t := Escape(data[0]), Stuff(data[1..]);
      var s := e + t;
      assert s == Stuff(data);
      forall i | 0 <= i < |s| ensures s[i] != FEND {
        if i >= |e| { assert s[i] == t[i - |e|]; }
      }
      forall i | 0 <= i < |s| && s[i] == FESC
        ensures i + 1 < |s| && (s[i + 1] == TFEND || s[i + 1] == TFESC)
      {
        if i >= |e| { assert s[i] == t[i - |e|]; assert s[i + 1] == t[i + 1 - |e|]; }
      }
    }
  }

  /** Escaping byte by byte from the end: the shape the encoder's loop takes. */
  lemma {:induction false} StuffSnoc(data: seq<Byte>, b: Byte)
    ensures Stuff(data + [b]) == Stuff(data) + Escape(b)
  {
    if data == [] {
      assert data + [b] == [b];
      assert Stuff([b]) == Escape(b) + Stuff([]);
    } else {
      assert (data + [b])[1..] == data[1..] + [b];
      StuffSnoc(data[1..], b);
    }
  }

  /** Escaping distributes over concatenation. */
  lemma {:induction false} StuffAppend(a: seq<Byte>, b: seq<Byte>)
    ensures Stuff(a + b) == Stuff(a) + Stuff(b)
  {
    if a == [] {
      assert a + b == b;
    } else {
      assert (a + b)[1..] == a[1..] + b;
      StuffAppend(a[1..], b);
    }
  }

  /** Data holding neither FEND nor FESC passes into the frame body unchanged. */
  lemma {:induction false} StuffPlain(data: seq<Byte>)
    requires forall i :: 0 <= i < |data| ==> data[i] != FEND && data[i] != FESC
    ensures Stuff(data) == data
  {
    if data != [] {
      StuffPlain(data[1..]);
      assert [data[0]] + data[1..] == data;
    }
  }

  /** The complete KISS frame around `data`. */
  function Frame(data: seq<Byte>): (r: seq<Byte>)
    ensures |r| == |data| + 3 + Count(data, FEND) + Count(data, FESC)
    ensures r[0] == FEND && r[1] == CMD_DATA && r[|r| - 1] == FEND
    ensures r[2..|r| - 1] == Stuff(data)
  {
    [FEND, CMD_DATA] + Stuff(data) + [FEND]
  }

  /** Data holding neither FEND nor FESC is framed by the two delimiters and the command byte alone. */
  lemma FramePlain(data: seq<Byte>)
    requires forall i :: 0 <= i < |data| ==> data[i] != FEND && data[i] != FESC
    ensures Frame(data) == [FEND, CMD_DATA] + data + [FEND]
  {
    StuffPlain(data);
  }

  /** The body of a KISS frame holds no FEND, so the two delimiters are the only ones. */
  lemma FrameDelimiters(data: seq<Byte>)
    ensures forall i :: 0 <= i < |Frame(data)| ==> (Frame(data)[i] == FEND <==> i == 0 || i == |Frame(data)| - 1)
  {
    var r := Frame(data);
    StuffTransparent(data);
    forall i | 0 < i < |r| - 1 ensures r[i] != FEND {
      if i > 1 {
        assert r[i] == r[2..|r| - 1][i - 2];
      }
    }
  }

  /** `kiss_encode`: the frame is grown in place, byte by byte. */
  method Encode(data: seq<Byte>) returns (frame: seq<Byte>)
    ensures frame == Frame(data)
  {
    frame := [FEND, CMD_DATA];
    for i := 0 to |data|
      invariant frame == [FEND, CMD_DATA] + Stuff(data[..i])
    {
      var b := data[i];
      assert data[..i + 1] == data[..i] + [b];
      ghost var done := frame;
      if b == FEND {
        frame := frame + [FESC, TFEND];
      } else if b == FESC {
        frame := frame + [FESC, TFESC];
      } else {
        frame := frame + [b];
      }
      EncodeStep(data[..i], b, done, frame);
    }
    assert data[..|data|] == data;
    frame := frame + [FEND];
  }

  /** One turn of the encoder's loop extends the frame by the next byte's escape. */
  lemma EncodeStep(prefix: seq<Byte>, b: Byte, done: seq<Byte>, frame: seq<Byte>)
    requires done == [FEND, CMD_DATA] + Stuff(prefix)
    requires frame == done + Escape(b)
    ensures frame == [FEND, CMD_DATA] + Stuff(prefix + [b])
  {
    StuffSnoc(prefix, b);
    assert [FEND, CMD_DATA] + Stuff(prefix) + Escape(b) == [FEND, CMD_DATA] + (Stuff(prefix) + Escape(b));
  }

  function Prepend(b: Byte, rest: Option<seq<Byte>>): Option<seq<Byte>>
  {
    match rest
    case None => None
    case Some(t) => Some([b] + t)
  }

  /**
   * Undoes the escaping of a frame body; None on a raw FEND, on a FESC at the end
   * or on a FESC followed by anything but TFEND or TFESC.
   */
  function Unstuff(s: seq<Byte>): (r: Option<seq<Byte>>)
    decreases |s|
  {
    if s == [] then Some([])
    else if s[0] == FEND then None
    else if s[0] == FESC then
      if |s| < 2 then None
      else if s[1] == TFEND then Prepend(FEND, Unstuff(s[2..]))
      else if s[1] == TFESC then Prepend(FESC, Unstuff(s[2..]))
      else None
    else Prepend(s[0], Unstuff(s[1..]))
  }

  /** Reads back one KISS data frame: delimiters and command byte, then the unescaped body. */
  function Decode(frame: seq<Byte>): (r: Option<seq<Byte>>)
  {
    if |frame| >= 3 && frame[0] == FEND && frame[1] == CMD_DATA && frame[|frame| - 1] == FEND
    then Unstuff(frame[2..|frame| - 1])
    else None
  }

  lemma {:induction false} UnstuffStuff(data: seq<Byte>)
    ensures Unstuff(Stuff(data)) == Some(data)
  {
    if data != [] {
      var b := data[0];
      UnstuffStuff(data[1..]);
      var s := Stuff(data);
      assert s == Escape(b) + Stuff(data[1..]);
      if b == FEND || b == FESC {
        assert s[2..] == Stuff(data[1..]);
      } else {
        assert s[1..] == Stuff(data[1..]);
      }
      assert [b] + data[1..] == data;
    }
  }

  lemma {:induction false} StuffUnstuff(s: seq<Byte>, data: seq<Byte>)
    requires Unstuff(s) == Some(data)
    ensures Stuff(data) == s
    decreases |s|
  {
    if s != [] {
      if s[0] == FESC {
        var rest := Unstuff(s[2..]);
        assert rest.Some?;
        StuffUnstuff(s[2..], rest.value);
        assert data == [data[0]] + rest.value;
        assert data[1..] == rest.value;
        assert s == [s[0], s[1]] + s[2..];
      } else {
        var rest := Unstuff(s[1..]);
        assert rest.Some?;
        StuffUnstuff(s[1..], rest.value);
        assert data[1..] == rest.value;
        assert s == [s[0]] + s[1..];
      }
    }
  }

  /** Round trip: decoding a KISS frame gives back exactly the data that was framed. */
  lemma DecodeFrame(data: seq<Byte>)
    ensures Decode(Frame(data)) == Some(data)
  {
    UnstuffStuff(data);
  }

  /** A sequence with the delimiters and command byte in place is the frame around its body. */
  lemma FrameOfBody(frame: seq<Byte>, data: seq<Byte>)
    requires |frame| >= 3 && frame[0] == FEND && frame[1] == CMD_DATA && frame[|frame| - 1] == FEND
    requires frame[2..|frame| - 1] == Stuff(data)
    ensures frame == Frame(data)
  {
    assert frame == [frame[0], frame[1]] + frame[2..|frame| - 1] + [frame[|frame| - 1]];
  }

  /** Whatever the decoder accepts is the KISS frame of what it returns. */
  lemma DecodedIsFrame(frame: seq<Byte>, data: seq<Byte>)
    requires Decode(frame) == Some(data)
    ensures frame == Frame(data)
  {
    StuffUnstuff(frame[2..|frame| - 1], data);
    FrameOfBody(frame, data);
  }

  /**
   * The decoder accepts exactly the encoder's output: `frame` decodes to `data`
   * if and only if `frame` is the KISS frame of `data`.
   */
  lemma DecodeIff(frame: seq<Byte>, data: seq<Byte>)
    ensures Decode(frame) == Some(data) <==> frame == Frame(data)
  {
    if Decode(frame) == Some(data) {
      DecodedIsFrame(frame, data);
    }
    if frame == Frame(data) {
      DecodeFrame(data);
    }
  }

  /** The two transparency rules: FEND and FESC in the data each become a two-byte escape. */
  lemma EscapeExamples()
    ensures Frame([FEND]) == [FEND, CMD_DATA, FESC, TFEND, FEND]
    ensures Frame([FESC]) == [FEND, CMD_DATA, FESC, TFESC, FEND]
    ensures Frame([0x41]) == [FEND, CMD_DATA, 0x41, FEND]
  {
    assert Stuff([FEND]) == Escape(FEND) + Stuff([]);
    assert Stuff([FESC]) == Escape(FESC) + Stuff([]);
    assert Stuff([0x41]) == Escape(0x41) + Stuff([]);
  }
}
