/** A single protocol message: the typed-argument encoder, the 8-byte
    header writer and the cursor-based readers that decode a body. */
module Messages {
  import opened Wire
  import opened FixedPoint

  /** A body must stay below this length for `8 + |body|` to fit the
      16-bit size field of the header. */
  const MaxBody := 0x1_0000 - 8

  /** An argument handed to NewMessage, classified by its Go dynamic type;
      the encoder switches on that type. */
  datatype Arg =
    | IntArg(i: int64)                // Go `int`
    | Int32Arg(i32: int32)
    | Uint32Arg(u: uint32)
    | StringArg(s: seq<uint8>)
    | Uint32ArrayArg(a: seq<uint32>)
    | OtherArg(goType: string)        // any other type, wayland.Fixed included

  /** Number of zero bytes that bring a length of `k` to a multiple of four. */
  function Pad(k: nat): (p: nat)
    ensures p < 4 && (k + p) % 4 == 0
  {
    if k % 4 != 0 then 4 - k % 4 else 0
  }

  /** Length word (string length plus the terminator), the bytes, one NUL,
      then zero padding. */
  function StringEncoding(s: seq<uint8>): (e: seq<uint8>)
    ensures |e| == 4 + (|s| + 1) + Pad(|s| + 1)
    ensures |e| % 4 == 0
  {
    AlignedSum(4, |s| + 1 + Pad(|s| + 1));
    LE32(ToUint32(|s| + 1)) + s + [0] + Zeros(Pad(|s| + 1))
  }

  /** The bytes one argument contributes to the body, or None when the type
      switch falls through to its default case. */
  function EncodeArg(a: Arg): (r: Option<seq<uint8>>)
    ensures r.None? <==> a.OtherArg?
    ensures r.Some? ==> |r.value| % 4 == 0
    ensures a.IntArg? || a.Int32Arg? || a.Uint32Arg? ==> r.Some? && |r.value| == 4
    ensures a.Uint32ArrayArg? ==> r == Some([])
  {
    match a
    case IntArg(i) => Some(LE32(ToUint32(i)))
    case Int32Arg(i) => Some(LE32(ToUint32(i)))
    case Uint32Arg(u) => Some(LE32(u))
    case StringArg(s) => Some(StringEncoding(s))
    case Uint32ArrayArg(_) => Some([])
    case OtherArg(_) => None
  }

  /** No argument falls through to the default case of the type switch. */
  predicate Supported(args: seq<Arg>)
  {
    forall a :: a in args ==> !a.OtherArg?
  }

  lemma SupportedCons(args: seq<Arg>)
    requires args != []
    ensures Supported(args) <==> !args[0].OtherArg? && Supported(args[1..])
  {
    assert args == [args[0]] + args[1..];
  }

  /** The body for a whole argument list: the concatenation of the
      arguments' encodings, or None as soon as one is unsupported. */
  function Encode(args: seq<Arg>): (r: Option<seq<uint8>>)
    ensures r.Some? <==> Supported(args)
    ensures r.Some? ==> |r.value| % 4 == 0
  {
    if args == [] then Some([])
    else
      var head := EncodeArg(args[0]);
      var tail := Encode(args[1..]);
      SupportedCons(args);
      if head.Some? && tail.Some? then
        AlignedSum(|head.value|, |tail.value|);
        Some(head.value + tail.value)
      else None
  }

  /** Cutting a length to 16 bits keeps its remainder modulo four. */
  lemma TruncationKeepsAlignment(length: nat)
    ensures (length % 0x1_0000) % 4 == length % 4
  {
    var q := length / 0x1_0000;
    assert length == 0x1_0000 * q + length % 0x1_0000;
    assert 0x1_0000 * q == 4 * (0x4000 * q);
  }

  lemma AlignedSum(a: nat, b: nat)
    requires a % 4 == 0 && b % 4 == 0
    ensures (a + b) % 4 == 0
  {
  }

  /** Encoding one more supported argument appends its bytes. */
  lemma {:induction false} EncodeSnoc(args: seq<Arg>, a: Arg)
    requires Encode(args).Some? && !a.OtherArg?
    ensures Encode(args + [a]) == Some(Encode(args).value + EncodeArg(a).value)
  {
    var ea := EncodeArg(a).value;
    if args == [] {
      assert [a][1..] == [];
      assert Encode([a]).value == ea + [] == [] + ea;
    } else {
      var whole := args + [a];
      assert whole[0] == args[0] && whole[1..] == args[1..] + [a];
      SupportedCons(args);
      var e0, rest := EncodeArg(args[0]).value, Encode(args[1..]).value;
      assert Encode(whole[1..]) == Some(rest + ea) by {
        EncodeSnoc(args[1..], a);
      }
      assert Encode(args).value == e0 + rest;
      assert Encode(whole) == Some(e0 + (rest + ea));
      assert e0 + (rest + ea) == (e0 + rest) + ea;
    }
  }

  /** The encoder consumes the four bytes of a word argument, so reading
      four bytes back at the same place yields the value written. */
  lemma WordAtEncoded(body: seq<uint8>, pos: nat, w: uint32)
    requires pos + 4 <= |body| && body[pos..pos + 4] == LE32(w)
    ensures WordAt(body, pos) == w
  {
    LE32RoundTrip(w);
  }

  // ---------------------------------------------------------------------
  // Decoding: what the readers see at a cursor position.

  /** A four-byte read at `pos` stays inside the body, and the 16-bit cursor
      sum `pos + 4` does not wrap (if it did, Go's slice bounds would be
      inverted and the read would panic). */
  predicate WordFits(body: seq<uint8>, pos: nat)
  {
    pos + 4 <= |body| && pos + 4 < 0x1_0000
  }

  /** The little-endian word stored at `pos`: the word whose encoding is
      the four bytes there. */
  function WordAt(body: seq<uint8>, pos: nat): (w: uint32)
    requires pos + 4 <= |body|
    ensures LE32(w) == body[pos..pos + 4]
  {
    FromLE32RoundTrip(body[pos..pos + 4]);
    FromLE32(body[pos..pos + 4])
  }

  /** The string length the reader uses: the length word cut to 16 bits by
      the conversion `uint16(length)`. */
  function StringLength(body: seq<uint8>, pos: nat): (len: uint16)
    requires pos + 4 <= |body|
    ensures WordAt(body, pos) < 0x1_0000 ==> len == WordAt(body, pos)
    ensures len % 4 == WordAt(body, pos) % 4
  {
    TruncationKeepsAlignment(WordAt(body, pos));
    WordAt(body, pos) % 0x1_0000
  }

  /** Both slices ReadString takes at `pos` stay inside the body. */
  predicate StringFits(body: seq<uint8>, pos: nat)
  {
    && WordFits(body, pos)
    && pos + 4 + StringLength(body, pos) <= |body|
    && pos + 4 + StringLength(body, pos) < 0x1_0000
  }

  /** strings.TrimSuffix(s, "\x00"): drop one trailing NUL, if present. */
  function TrimNul(s: seq<uint8>): (r: seq<uint8>)
    ensures r == s || (s == r + [0])
    ensures |s| > 0 && s[|s| - 1] == 0 ==> r == s[..|s| - 1]
  {
    if |s| > 0 && s[|s| - 1] == 0 then s[..|s| - 1] else s
  }

  /** The string ReadString returns at `pos`. */
  function StringAt(body: seq<uint8>, pos: nat): (s: seq<uint8>)
    requires StringFits(body, pos)
    ensures |s| <= StringLength(body, pos) <= |s| + 1
  {
    TrimNul(body[pos + 4..pos + 4 + StringLength(body, pos)])
  }

  /** Where ReadString leaves the cursor: past the length word, the bytes and
      the padding, in 16-bit arithmetic. */
  function StringEnd(body: seq<uint8>, pos: nat): (end: uint16)
    requires StringFits(body, pos)
    ensures end % 4 == pos % 4
  {
    var len := StringLength(body, pos);
    ShiftKeepsAlignment(pos, 4 + len + Pad(len));
    (pos + 4 + len + Pad(len)) % 0x1_0000
  }

  /** Moving a 16-bit cursor by a multiple of four keeps it modulo four. */
  lemma ShiftKeepsAlignment(pos: nat, m: nat)
    requires m % 4 == 0
    ensures ((pos + m) % 0x1_0000) % 4 == pos % 4
  {
    TruncationKeepsAlignment(pos + m);
  }

  /** The length word of a string's encoding and the bytes it covers. */
  lemma StringEncodingParts(s: seq<uint8>)
    requires |s| + 1 < 0x1_0000_0000
    ensures StringEncoding(s)[..4] == LE32(|s| + 1)
    ensures StringEncoding(s)[4..4 + |s| + 1] == s + [0]
    ensures StringEncoding(s)[4 + |s| + 1..] == Zeros(Pad(|s| + 1))
  {
    var lenWord, text, pad := LE32(ToUint32(|s| + 1)), s + [0], Zeros(Pad(|s| + 1));
    var e := StringEncoding(s);
    assert e == lenWord + text + pad;
    assert e[..4] == lenWord;
    assert e[4..4 + |text|] == text;
    assert e[4 + |text|..] == pad;
  }

  /** Reading back the encoding of `s` stored at `pos` yields `s`, and the
      cursor lands right after the encoding. */
  lemma StringAtEncoded(body: seq<uint8>, pos: nat, s: seq<uint8>)
    requires pos + |StringEncoding(s)| <= |body| < 0x1_0000
    requires body[pos..pos + |StringEncoding(s)|] == StringEncoding(s)
    ensures StringFits(body, pos)
    ensures StringAt(body, pos) == s
    ensures StringEnd(body, pos) == pos + |StringEncoding(s)|
  {
    var len := |s| + 1;
    EncodedStringSlices(body, pos, s);
    WordAtEncoded(body, pos, len);
    assert StringLength(body, pos) == len;
    assert StringAt(body, pos) == s by {
      assert TrimNul(s + [0]) == (s + [0])[..|s|] == s;
    }
    assert StringEnd(body, pos) == pos + |StringEncoding(s)| by {
      assert pos + 4 + len + Pad(len) == pos + |StringEncoding(s)|;
      SmallMod(pos + |StringEncoding(s)|);
    }
  }

  /** Where the length word and the text of a stored string encoding sit. */
  lemma EncodedStringSlices(body: seq<uint8>, pos: nat, s: seq<uint8>)
    requires pos + |StringEncoding(s)| <= |body| < 0x1_0000
    requires body[pos..pos + |StringEncoding(s)|] == StringEncoding(s)
    ensures body[pos..pos + 4] == LE32(|s| + 1)
    ensures body[pos + 4..pos + 4 + |s| + 1] == s + [0]
  {
    var e := StringEncoding(s);
    StringEncodingParts(s);
    SliceOfSlice(body, pos, |e|, 0, 4);
    assert e[0..4] == e[..4];
    SliceOfSlice(body, pos, |e|, 4, 4 + |s| + 1);
  }

  lemma SmallMod(x: int)
    requires 0 <= x < 0x1_0000
    ensures x % 0x1_0000 == x
  {
  }

  /** A slice of a slice is a slice of the original. */
  lemma SliceOfSlice(body: seq<uint8>, pos: nat, len: nat, i: nat, j: nat)
    requires pos + len <= |body| && i <= j <= len
    ensures body[pos..pos + len][i..j] == body[pos + i..pos + j]
  {
    var a, b := body[pos..pos + len][i..j], body[pos + i..pos + j];
    assert |a| == |b|;
    forall k | 0 <= k < |a|
      ensures a[k] == b[k]
    {
      assert a[k] == body[pos + i + k];
    }
  }

  // ---------------------------------------------------------------------
  // The message object.

  class Message {
    var objectId: uint32
    var opCode: uint16
    var size: uint16
    var body: seq<uint8>
    /** Read cursor into `body`. */
    var n: uint16
    /** Descriptors that travel beside the bytes. */
    var fds: seq<int>
    /** Index of the next descriptor to hand out; nothing ever advances it. */
    var nextFd: nat

    /** A struct literal: the named fields set, the rest zero. */
    constructor (objectId: uint32, opCode: uint16, size: uint16, body: seq<uint8>)
      ensures this.objectId == objectId && this.opCode == opCode
      ensures this.size == size && this.body == body
      ensures n == 0 && fds == [] && nextFd == 0
    {
      this.objectId := objectId;
      this.opCode := opCode;
      this.size := size;
      this.body := body;
      n := 0;
      fds := [];
      nextFd := 0;
    }

    /** The little-endian word at the cursor; the cursor moves by four. */
    method ReadUint32() returns (r: uint32)
      requires WordFits(body, n)
      modifies this`n
      ensures n == old(n) + 4
      ensures r == WordAt(body, old(n))
    {
      r := FromLE32(body[n..n + 4]);
      n := n + 4;
    }

    /** The same four bytes as ReadUint32, read as two's complement. */
    method ReadInt32() returns (r: int32)
      requires WordFits(body, n)
      modifies this`n
      ensures n == old(n) + 4
      ensures ToUint32(r) == WordAt(body, old(n))
    {
      var u := ReadUint32();
      r := ToInt32(u);
    }

    /** The same four bytes as ReadUint32, as a fixed-point number. */
    method ReadFixed() returns (r: Fixed)
      requires WordFits(body, n)
      modifies this`n
      ensures n == old(n) + 4
      ensures r as int == WordAt(body, old(n))
    {
      var u := ReadUint32();
      r := u as Fixed;
    }

    /** A length-prefixed string with its one trailing NUL removed; the
        cursor moves past the padding. */
    method ReadString() returns (r: seq<uint8>)
      requires StringFits(body, n)
      modifies this`n
      ensures n == StringEnd(body, old(n))
      ensures r == StringAt(body, old(n))
    {
      var length := FromLE32(body[n..n + 4]);
      n := n + 4;
      var len := length % 0x1_0000;
      var result := body[n..n + len];
      n := n + len;
      TruncationKeepsAlignment(length);
      if length % 4 != 0 {
        n := (n + (4 - length % 4)) % 0x1_0000;
      }
      r := TrimNul(result);
    }

    /** Arrays are not decoded: nothing is read and nil comes back. */
    method ReadArray() returns (r: seq<uint32>)
      ensures r == []
    {
      r := [];
    }

    /** The descriptor at `nextFd`, or 0 once none is left. The message is
        not changed, so successive calls return the same descriptor. */
    method ReadFd() returns (fd: int)
      ensures nextFd < |fds| ==> fd == fds[nextFd]
      ensures nextFd >= |fds| ==> fd == 0
    {
      if nextFd < |fds| {
        fd := fds[nextFd];
      } else {
        fd := 0;
      }
    }

    /** Replaces the descriptor list and returns the same message. */
    method WithFds(fd: seq<int>) returns (r: Message)
      modifies this`fds
      ensures fds == fd && r == this
    {
      fds := fd;
      r := this;
    }
  }

  /** Builds a message from typed arguments; null when an argument has an
      unsupported type. The size field is computed from the body in 16 bits. */
  method NewMessage(objectId: uint32, opCode: uint16, args: seq<Arg>) returns (m: Message?)
    ensures Encode(args).None? ==> m == null
    ensures Encode(args).Some? ==>
      && m != null && fresh(m)
      && m.objectId == objectId && m.opCode == opCode
      && m.body == Encode(args).value
      && m.size == (8 + |m.body|) % 0x1_0000
      && m.n == 0 && m.fds == [] && m.nextFd == 0
  {
    var buf: seq<uint8> := [];
    var i := 0;
    while i < |args|
      invariant 0 <= i <= |args|
      invariant Encode(args[..i]) == Some(buf)
    {
      ghost var prev := buf;
      match args[i] {
        case IntArg(v) =>
          buf := buf + LE32(ToUint32(v));
        case Int32Arg(v) =>
          buf := buf + LE32(ToUint32(v));
        case Uint32Arg(v) =>
          buf := buf + LE32(v);
        case StringArg(s) =>
          buf := buf + LE32(ToUint32(|s| + 1));
          buf := buf + (s + [0]);
          if (|s| + 1) % 4 != 0 {
            buf := buf + Zeros(4 - (|s| + 1) % 4);
          }
          StringAppended(prev, s, buf);
        case Uint32ArrayArg(_) =>
        case OtherArg(_) =>
          assert args[i] in args;
          return null;
      }
      assert buf == prev + EncodeArg(args[i]).value;
      EncodeSnoc(args[..i], args[i]);
      TakeSnoc(args, i);
      i := i + 1;
    }
    assert args[..i] == args;
    m := new Message(objectId, opCode, (8 + |buf|) % 0x1_0000, buf);
  }

  /** The three writes NewMessage makes for a string add up to its encoding. */
  lemma StringAppended(prev: seq<uint8>, s: seq<uint8>, buf: seq<uint8>)
    requires var k := |s| + 1;
      buf == prev + LE32(ToUint32(k)) + (s + [0]) + (if k % 4 != 0 then Zeros(4 - k % 4) else [])
    ensures buf == prev + StringEncoding(s)
  {
    var k := |s| + 1;
    assert k % 4 == 0 ==> Zeros(Pad(k)) == [];
  }

  /** The frame layout: object id, opcode and a size equal to the frame's own
      length (in 16 bits), each little-endian, then the body unchanged. */
  ghost predicate IsFrameOf(frame: seq<uint8>, objectId: uint32, opCode: uint16, body: seq<uint8>)
  {
    && |frame| == 8 + |body|
    && frame[..4] == LE32(objectId)
    && frame[4..6] == LE16(opCode)
    && frame[6..8] == LE16(|frame| % 0x1_0000)
    && frame[8..] == body
  }

  /** Serializes a message; a nil message gives nil. The size is written
      into the header after the buffer is built, from the buffer's length,
      not from the message's size field. */
  method Bytes(msg: Message?) returns (r: Option<seq<uint8>>)
    ensures msg == null <==> r.None?
    ensures msg != null ==> IsFrameOf(r.value, msg.objectId, msg.opCode, msg.body)
  {
    if msg == null {
      return None;
    }
    var buf := LE32(msg.objectId) + LE16(msg.opCode) + LE16(0) + msg.body;
    var result := new uint8[|buf|](i => if 0 <= i < |buf| then buf[i] else 0);
    var sizeBytes := LE16(|buf| % 0x1_0000);
    result[6], result[7] := sizeBytes[0], sizeBytes[1];
    r := Some(result[..]);
    assert r.value[..4] == buf[..4] == LE32(msg.objectId);
    assert r.value[4..6] == buf[4..6] == LE16(msg.opCode);
    assert r.value[6..8] == sizeBytes;
    assert r.value[8..] == buf[8..] == msg.body;
  }

  // ---------------------------------------------------------------------
  // Sequential decoding, as a generated event listener performs it.

  /** One of the readers a listener calls, in argument order. */
  datatype Reader = ReadsUint32 | ReadsInt32 | ReadsFixed | ReadsString | ReadsArray | ReadsFd

  datatype Value =
    | Uint32Value(u: uint32)
    | Int32Value(i: int32)
    | FixedValue(f: Fixed)
    | StringValue(s: seq<uint8>)
    | ArrayValue(a: seq<uint32>)
    | FdValue(fd: int)

  /** What one reader returns at cursor `pos`, with the new cursor; None
      where the Go reader would panic on an out-of-range slice. Only the
      word and string readers can fail, and the array and descriptor
      readers leave the cursor where it is. */
  function ReadOne(body: seq<uint8>, fds: seq<int>, nextFd: nat, pos: nat, r: Reader): (res: Option<(Value, nat)>)
    ensures res.None? <==> || ((r.ReadsUint32? || r.ReadsInt32? || r.ReadsFixed?) && !WordFits(body, pos))
                           || (r.ReadsString? && !StringFits(body, pos))
    ensures res.Some? && (r.ReadsUint32? || r.ReadsInt32? || r.ReadsFixed?) ==> res.value.1 == pos + 4
    ensures r.ReadsArray? || r.ReadsFd? ==> res.Some? && res.value.1 == pos
  {
    match r
    case ReadsUint32 =>
      if WordFits(body, pos) then Some((Uint32Value(WordAt(body, pos)), pos + 4)) else None
    case ReadsInt32 =>
      if WordFits(body, pos) then Some((Int32Value(ToInt32(WordAt(body, pos))), pos + 4)) else None
    case ReadsFixed =>
      if WordFits(body, pos) then Some((FixedValue(WordAt(body, pos) as Fixed), pos + 4)) else None
    case ReadsString =>
      if StringFits(body, pos) then Some((StringValue(StringAt(body, pos)), StringEnd(body, pos) as nat)) else None
    case ReadsArray => Some((ArrayValue([]), pos))
    case ReadsFd => Some((FdValue(if nextFd < |fds| then fds[nextFd] else 0), pos))
  }

  /** Runs the readers one after another from cursor `pos`: one value per
      reader, or None as soon as one of them fails. */
  function ReadSequence(body: seq<uint8>, fds: seq<int>, nextFd: nat, pos: nat, rs: seq<Reader>): (res: Option<(seq<Value>, nat)>)
    ensures res.Some? ==> |res.value.0| == |rs|
    decreases |rs|
  {
    if rs == [] then Some(([], pos))
    else
      var first := ReadOne(body, fds, nextFd, pos, rs[0]);
      if first.None? then None
      else
        var rest := ReadSequence(body, fds, nextFd, first.value.1, rs[1..]);
        if rest.None? then None
        else Some(([first.value.0] + rest.value.0, rest.value.1))
  }

  /** Reader `r` consumes exactly the bytes argument `a` wrote. */
  predicate Matches(r: Reader, a: Arg)
  {
    match a
    case IntArg(_) => r.ReadsUint32? || r.ReadsInt32? || r.ReadsFixed?
    case Int32Arg(_) => r.ReadsUint32? || r.ReadsInt32? || r.ReadsFixed?
    case Uint32Arg(_) => r.ReadsUint32? || r.ReadsInt32? || r.ReadsFixed?
    case StringArg(_) => r.ReadsString?
    case Uint32ArrayArg(_) => r.ReadsArray?
    case OtherArg(_) => false
  }

  predicate AllMatch(rs: seq<Reader>, args: seq<Arg>)
    decreases |rs|
  {
    |rs| == |args| && (rs == [] || (Matches(rs[0], args[0]) && AllMatch(rs[1..], args[1..])))
  }

  /** The 32 bits a word argument puts on the wire. */
  function WordOf(a: Arg): uint32
    requires a.IntArg? || a.Int32Arg? || a.Uint32Arg?
  {
    match a
    case IntArg(i) => ToUint32(i)
    case Int32Arg(i) => ToUint32(i)
    case Uint32Arg(u) => u
  }

  /** The value a matching reader gives back for an argument. */
  function Expected(r: Reader, a: Arg): Value
    requires Matches(r, a)
  {
    match r
    case ReadsUint32 => Uint32Value(WordOf(a))
    case ReadsInt32 => Int32Value(ToInt32(WordOf(a)))
    case ReadsFixed => FixedValue(WordOf(a) as Fixed)
    case ReadsString => StringValue(a.s)
    case ReadsArray => ArrayValue([])
  }

  function ExpectedAll(rs: seq<Reader>, args: seq<Arg>): (vs: seq<Value>)
    requires AllMatch(rs, args)
    ensures |vs| == |rs|
    decreases |rs|
  {
    if rs == [] then [] else [Expected(rs[0], args[0])] + ExpectedAll(rs[1..], args[1..])
  }

  /** One matching reader, run over one argument's encoding, gives back the
      value written and moves past exactly that encoding. */
  lemma ReadOneEncoded(r: Reader, a: Arg, e: seq<uint8>, body: seq<uint8>, fds: seq<int>, nextFd: nat, pos: nat)
    requires Matches(r, a) && EncodeArg(a) == Some(e)
    requires pos + |e| <= |body| < 0x1_0000
    requires body[pos..pos + |e|] == e
    ensures ReadOne(body, fds, nextFd, pos, r) == Some((Expected(r, a), pos + |e|))
  {
    match a {
      case StringArg(s) =>
        StringAtEncoded(body, pos, s);
      case Uint32ArrayArg(_) =>
      case IntArg(_) =>
        WordAtEncoded(body, pos, WordOf(a));
      case Int32Arg(_) =>
        WordAtEncoded(body, pos, WordOf(a));
      case Uint32Arg(_) =>
        WordAtEncoded(body, pos, WordOf(a));
    }
  }

  /** Round trip: readers matching the arguments, run over their encoding
      wherever it sits in a body, give back the values written and leave the
      cursor right after the encoding. */
  lemma {:induction false} DecodeEncoded(rs: seq<Reader>, args: seq<Arg>, enc: seq<uint8>,
                                         body: seq<uint8>, fds: seq<int>, nextFd: nat, pos: nat)
    requires AllMatch(rs, args)
    requires Encode(args) == Some(enc)
    requires pos + |enc| <= |body| < 0x1_0000
    requires body[pos..pos + |enc|] == enc
    ensures ReadSequence(body, fds, nextFd, pos, rs) == Some((ExpectedAll(rs, args), pos + |enc|))
    decreases |rs|
  {
    if rs != [] {
      var e, tail := DecodeHead(rs, args, enc, body, pos);
      DecodeEncoded(rs[1..], args[1..], tail, body, fds, nextFd, pos + |e|);
      DecodeStep(rs, args, e, body, fds, nextFd, pos, pos + |enc|);
    } else {
      assert args == [] && enc == [];
    }
  }

  /** How the encoding of `args` splits after the first argument. */
  lemma DecodeHead(rs: seq<Reader>, args: seq<Arg>, enc: seq<uint8>, body: seq<uint8>, pos: nat)
    returns (e: seq<uint8>, tail: seq<uint8>)
    requires rs != [] && AllMatch(rs, args)
    requires Encode(args) == Some(enc)
    requires pos + |enc| <= |body|
    requires body[pos..pos + |enc|] == enc
    ensures Matches(rs[0], args[0]) && AllMatch(rs[1..], args[1..])
    ensures EncodeArg(args[0]) == Some(e) && body[pos..pos + |e|] == e
    ensures Encode(args[1..]) == Some(tail) && pos + |e| + |tail| == pos + |enc|
    ensures body[pos + |e|..pos + |e| + |tail|] == tail
  {
    e := EncodeArg(args[0]).value;
    tail := Encode(args[1..]).value;
    assert enc == e + tail;
    SliceOfSlice(body, pos, |enc|, 0, |e|);
    SliceOfSlice(body, pos, |enc|, |e|, |enc|);
    assert enc[..|e|] == e && enc[|e|..] == tail;
  }

  /** One step of ReadSequence over an encoding: the first reader gives back
      the first argument, then the remaining readers continue after its
      bytes. */
  lemma DecodeStep(rs: seq<Reader>, args: seq<Arg>, e: seq<uint8>, body: seq<uint8>,
                   fds: seq<int>, nextFd: nat, pos: nat, end: nat)
    requires rs != [] && AllMatch(rs, args) && EncodeArg(args[0]) == Some(e)
    requires pos + |e| <= |body| < 0x1_0000 && body[pos..pos + |e|] == e
    requires ReadSequence(body, fds, nextFd, pos + |e|, rs[1..]) == Some((ExpectedAll(rs[1..], args[1..]), end))
    ensures ReadSequence(body, fds, nextFd, pos, rs) == Some((ExpectedAll(rs, args), end))
  {
    ReadOneEncoded(rs[0], args[0], e, body, fds, nextFd, pos);
  }

  /** The reader a generated listener would use for an argument of each type. */
  function NaturalReader(a: Arg): Reader
  {
    match a
    case Int32Arg(_) => ReadsInt32
    case StringArg(_) => ReadsString
    case Uint32ArrayArg(_) => ReadsArray
    case _ => ReadsUint32
  }

  /** A message body built from `args` decodes, read by each argument's own
      reader, to the values written: uint32 words unchanged, int32 values
      unchanged, strings without their terminator, and the cursor ends at
      the end of the body. */
  lemma {:induction false} BodyRoundTrip(args: seq<Arg>, body: seq<uint8>)
    requires Encode(args) == Some(body) && |body| < MaxBody
    ensures var rs := seq(|args|, i requires 0 <= i < |args| => NaturalReader(args[i]));
      AllMatch(rs, args) && ReadSequence(body, [], 0, 0, rs) == Some((ExpectedAll(rs, args), |body|))
  {
    var rs := seq(|args|, i requires 0 <= i < |args| => NaturalReader(args[i]));
    NaturalReadersMatch(args);
    assert body[0..|body|] == body;
    DecodeEncoded(rs, args, body, body, [], 0, 0);
  }

  lemma {:induction false} NaturalReadersMatch(args: seq<Arg>)
    requires Encode(args).Some?
    ensures AllMatch(seq(|args|, i requires 0 <= i < |args| => NaturalReader(args[i])), args)
    decreases |args|
  {
    var rs := seq(|args|, i requires 0 <= i < |args| => NaturalReader(args[i]));
    if args != [] {
      assert !args[0].OtherArg?;
      assert Encode(args[1..]).Some? by {
        forall i | 0 <= i < |args[1..]| ensures !args[1..][i].OtherArg? {
          assert args[1..][i] == args[i + 1];
        }
      }
      NaturalReadersMatch(args[1..]);
      assert rs[1..] == seq(|args[1..]|, i requires 0 <= i < |args[1..]| => NaturalReader(args[1..][i]));
    }
  }

  /** A message built from a single uint32 yields it back on ReadUint32, and
      one built from a single string yields the string on ReadString with the
      cursor at the end of the body. */
  method SingleArgumentRoundTrip(objectId: uint32, opCode: uint16, u: uint32, s: seq<uint8>)
    returns (word: uint32, text: seq<uint8>, cursorAtEnd: bool)
    requires |s| < MaxBody - 8
    ensures word == u && text == s && cursorAtEnd
  {
    var m1 := NewMessage(objectId, opCode, [Uint32Arg(u)]);
    assert m1.body == LE32(u) by { assert Encode([Uint32Arg(u)]) == Some(LE32(u) + []); }
    WordAtEncoded(m1.body, 0, u);
    word := m1.ReadUint32();

    var m2 := NewMessage(objectId, opCode, [StringArg(s)]);
    var e := StringEncoding(s);
    assert m2.body == e by { assert Encode([StringArg(s)]) == Some(e + []); }
    assert m2.body[0..|e|] == e;
    StringAtEncoded(m2.body, 0, s);
    text := m2.ReadString();
    cursorAtEnd := m2.n as int == |m2.body|;
  }

  /** The body of a (uint32, string, uint32) message. */
  lemma EncodeWordStringWord(x: uint32, s: seq<uint8>, y: uint32)
    ensures Encode([Uint32Arg(x), StringArg(s), Uint32Arg(y)])
         == Some(LE32(x) + StringEncoding(s) + LE32(y))
  {
    var a3 := [Uint32Arg(y)];
    assert a3[1..] == [];
    assert Encode(a3) == Some(LE32(y) + []);
    var a2 := [StringArg(s), Uint32Arg(y)];
    assert a2[1..] == a3;
    assert Encode(a2) == Some(StringEncoding(s) + (LE32(y) + []));
    var a1 := [Uint32Arg(x), StringArg(s), Uint32Arg(y)];
    assert a1[1..] == a2;
    assert LE32(x) + (StringEncoding(s) + (LE32(y) + [])) == LE32(x) + StringEncoding(s) + LE32(y);
  }

  /** The wl_registry.global listener reads (uint32, string, uint32) from a
      message the compositor built from the same three values. */
  method GlobalEventRoundTrip(name: uint32, iface: seq<uint8>, version: uint32)
    returns (name': uint32, iface': seq<uint8>, version': uint32)
    requires |iface| < MaxBody - 16
    ensures name' == name && iface' == iface && version' == version
  {
    var m := NewMessage(2, 0, [Uint32Arg(name), StringArg(iface), Uint32Arg(version)]);
    EncodeWordStringWord(name, iface, version);
    var e := StringEncoding(iface);
    var body := m.body;
    assert body == LE32(name) + e + LE32(version);
    assert body[0..4] == LE32(name);
    WordAtEncoded(body, 0, name);
    name' := m.ReadUint32();
    assert body[4..4 + |e|] == e;
    StringAtEncoded(body, 4, iface);
    iface' := m.ReadString();
    assert body[4 + |e|..8 + |e|] == LE32(version);
    WordAtEncoded(body, 4 + |e|, version);
    version' := m.ReadUint32();
  }
}
