/** Three places where the generated client disagrees with the wire
    format, each shown on a concrete message and set beside the corrected
    behaviour the rest of the model uses. */
module Findings {
  import opened Wire
  import opened Messages
  import opened Scanner

  // ---------------------------------------------------------------------
  // Fixed-point request arguments.

  /** As generated, a request with a `fixed` argument passes a
      `wayland.Fixed` value to NewMessage, which has no case for it: the
      message is nil (wp_viewport.set_source is such a request). */
  lemma FixedRequestAsWritten(args: seq<ArgDecl>, values: seq<Arg>, k: nat)
    requires |values| == |args|
    requires forall i :: 0 <= i < |args| ==> KindOf(values[i]) == SentTypeAsWritten(args[i])
    requires k < |args| && args[k].argType == "fixed"
    ensures Encode(values) == None
  {
    var types := seq(|args|, i requires 0 <= i < |args| => SentTypeAsWritten(args[i]));
    assert !Accepted(types[k]);
    EncodeTyped(values, types);
  }

  // ---------------------------------------------------------------------
  // Concatenated words.

  /** The bytes of a sequence of 32-bit words, one after the other. */
  function Words(ws: seq<uint32>): (b: seq<uint8>)
    ensures |b| == 4 * |ws|
  {
    if ws == [] then [] else LE32(ws[0]) + Words(ws[1..])
  }

  /** The word at byte 4i of Words(ws) is ws[i]. */
  lemma {:induction false} WordsAt(ws: seq<uint32>, i: nat)
    requires i < |ws|
    ensures WordAt(Words(ws), 4 * i) == ws[i]
    decreases i
  {
    var b := Words(ws);
    if i == 0 {
      assert b[0..4] == LE32(ws[0]);
    } else {
      WordsAt(ws[1..], i - 1);
      var rest := Words(ws[1..]);
      assert b[4 * i..4 * i + 4] == rest[4 * (i - 1)..4 * (i - 1) + 4];
    }
    LE32RoundTrip(ws[i]);
  }

  // ---------------------------------------------------------------------
  // Object event arguments.

  /** wl_display.error(object_id: object, code: uint, message: string)
      for object 3, code 0 and an empty message. */
  function ErrorValues(): seq<Arg>
  {
    [Uint32Arg(3), Uint32Arg(0), StringArg([])]
  }

  predicate IsErrorEvent(args: seq<ArgDecl>)
  {
    |args| == 3 && args[0].argType == "object" && args[1].argType == "uint" && args[2].argType == "string"
  }

  /** The error event's body is the four words 3, 0, 1 (the length of the
      empty message with its terminator) and 0 (terminator and padding). */
  lemma ErrorBody()
    ensures Encode(ErrorValues()) == Some(Words([3, 0, 1, 0]))
  {
    var vs := ErrorValues();
    assert StringEncoding([]) == LE32(1) + LE32(0);
    assert vs[2..] == [StringArg([])] && vs[2..][1..] == [];
    assert Encode(vs[2..]) == Some(LE32(1) + LE32(0) + []);
    assert LE32(1) + LE32(0) + [] == LE32(1) + LE32(0);
    assert vs[1..][1..] == vs[2..] && vs[1..][0] == Uint32Arg(0);
    assert Encode(vs[1..]) == Some(LE32(0) + (LE32(1) + LE32(0)));
    assert Words([0]) == LE32(0);
    assert Words([1, 0]) == LE32(1) + LE32(0);
    assert Words([0, 1, 0]) == LE32(0) + Words([1, 0]);
  }

  /** As generated, the listener reads an object as a word, a string and a
      word, so it reads the code where the message's length word is and
      runs off the end of the body looking for the message: the reads
      panic. */
  lemma ErrorEventAsWritten(args: seq<ArgDecl>)
    requires IsErrorEvent(args)
    ensures Encode(ErrorValues()).Some?
    ensures ReadSequence(Encode(ErrorValues()).value, [], 0, 0, ReadersOfAsWritten(args)) == None
  {
    ErrorBody();
    assert ReadersOfAsWritten(args) == [ReadsUint32, ReadsString, ReadsUint32, ReadsUint32, ReadsString] by {
      assert ReadersOfAsWritten(args[2..]) == [ReadsString];
      assert ReadersOfAsWritten(args[1..]) == [ReadsUint32, ReadsString];
    }
    ErrorReadsPastEnd(Words([3, 0, 1, 0]), [ReadsUint32, ReadsString, ReadsUint32, ReadsUint32, ReadsString]);
  }

  /** The as-generated reads over the error event's body, word by word. */
  lemma ErrorReadsPastEnd(b: seq<uint8>, rs: seq<Reader>)
    requires b == Words([3, 0, 1, 0])
    requires rs == [ReadsUint32, ReadsString, ReadsUint32, ReadsUint32, ReadsString]
    ensures ReadSequence(b, [], 0, 0, rs) == None
  {
    WordsAt([3, 0, 1, 0], 0);
    WordsAt([3, 0, 1, 0], 1);
    WordsAt([3, 0, 1, 0], 2);
    WordsAt([3, 0, 1, 0], 3);
    assert ReadOne(b, [], 0, 4, ReadsString) == Some((StringValue([]), 8)) by {
      assert StringLength(b, 4) == 0;
      assert TrimNul([]) == [];
    }
    assert ReadSequence(b, [], 0, 16, rs[4..]) == None;
    assert ReadSequence(b, [], 0, 12, rs[3..]) == None;
    assert ReadSequence(b, [], 0, 8, rs[2..]) == None;
    assert ReadSequence(b, [], 0, 4, rs[1..]) == None;
  }

  /** Corrected: with the object read as its id alone, the listener gets
      back object 3, code 0 and the empty message, and reads the whole
      body. */
  lemma ErrorEventCorrected(args: seq<ArgDecl>)
    requires IsErrorEvent(args)
    ensures Encode(ErrorValues()).Some?
    ensures ReadSequence(Encode(ErrorValues()).value, [], 0, 0, ReadersOf(args))
         == Some(([Uint32Value(3), Uint32Value(0), StringValue([])], 16))
  {
    ErrorBody();
    var vs := ErrorValues();
    var rs := ReadersOf(args);
    assert rs == [ReadsUint32, ReadsUint32, ReadsString] by {
      assert ReadersOf(args[2..]) == [ReadsString];
      assert ReadersOf(args[1..]) == [ReadsUint32, ReadsString];
    }
    ErrorEventCarried(args);
    EventRoundTrip(args, vs, Words([3, 0, 1, 0]));
    ErrorEventExpected(rs);
  }

  lemma ErrorEventCarried(args: seq<ArgDecl>)
    requires IsErrorEvent(args)
    ensures forall i :: 0 <= i < |args| ==> Carries(args[i].argType, ErrorValues()[i])
  {
  }

  lemma ErrorEventExpected(rs: seq<Reader>)
    requires rs == [ReadsUint32, ReadsUint32, ReadsString]
    ensures AllMatch(rs, ErrorValues())
    ensures ExpectedAll(rs, ErrorValues()) == [Uint32Value(3), Uint32Value(0), StringValue([])]
  {
    var vs := ErrorValues();
    assert rs[1..][1..] == rs[2..] && vs[1..][1..] == vs[2..];
    assert rs[2..] == [ReadsString] && vs[2..] == [StringArg([])];
    assert AllMatch(rs[2..], vs[2..]);
    assert ExpectedAll(rs[2..], vs[2..]) == [StringValue([])];
    assert ExpectedAll(rs[1..], vs[1..]) == [Uint32Value(0), StringValue([])];
  }

  // ---------------------------------------------------------------------
  // new_id event arguments.

  /** wl_data_device.data_offer(id: new_id): the compositor sends the id it
      chose for the new object, here the first id of its own range. */
  const ServerId: uint32 := 0xff00_0000

  predicate IsDataOfferEvent(args: seq<ArgDecl>)
  {
    |args| == 1 && args[0].argType == "new_id"
  }

  /** As generated, the listener reads nothing for a new_id and makes up a
      client id instead: the compositor's id is never read and the cursor
      stays at the start of the four-byte body. */
  lemma DataOfferAsWritten(args: seq<ArgDecl>)
    requires IsDataOfferEvent(args)
    ensures Encode([Uint32Arg(ServerId)]) == Some(LE32(ServerId))
    ensures ReadSequence(LE32(ServerId), [], 0, 0, ReadersOfAsWritten(args)) == Some(([], 0))
  {
    assert ReadersOfAsWritten(args) == [] by {
      assert ReadersOfAsWritten(args[1..]) == [];
    }
    assert LE32(ServerId) + [] == LE32(ServerId);
  }

  /** Corrected: the new_id is read as a word, giving the compositor's id
      and consuming the body. */
  lemma DataOfferCorrected(args: seq<ArgDecl>)
    requires IsDataOfferEvent(args)
    ensures ReadSequence(LE32(ServerId), [], 0, 0, ReadersOf(args)) == Some(([Uint32Value(ServerId)], 4))
  {
    assert ReadersOf(args) == [ReadsUint32] by {
      assert ReadersOf(args[1..]) == [];
    }
    var b := LE32(ServerId);
    assert b[0..4] == b;
    LE32RoundTrip(ServerId);
    assert ReadOne(b, [], 0, 0, ReadsUint32) == Some((Uint32Value(ServerId), 4));
    assert [ReadsUint32][1..] == [];
    assert ReadSequence(b, [], 0, 4, []) == Some(([], 4));
    assert [Uint32Value(ServerId)] + [] == [Uint32Value(ServerId)];
  }
}
