/**
 * The request frame as `IppOperation.getIppHeader` builds it: a buffer to
 * which the `IppTag` primitives append one tagged field each, and which is
 * then flipped from writing to reading.  The byte layout each primitive
 * writes is not part of this model, so a field is kept as an abstract
 * record and the buffer's position and limit count fields, not bytes.
 */
module IppFrame {

  import opened Wrappers

  type byte = b: int | 0 <= b < 256

  /** The value tag of an attribute field: one per `IppTag` primitive used. */
  datatype ValueTag =
    | Uri                  // IppTag.getUri
    | NameWithoutLanguage  // IppTag.getNameWithoutLanguage
    | Integer              // IppTag.getInteger
    | Keyword              // IppTag.getKeyword

  /** An attribute value; `Missing` is the Java null handed to a primitive. */
  datatype Value = Text(text: string) | Number(number: int) | Missing

  /** One append to the frame. */
  datatype Field =
      /** What IppTag.getOperation writes: version, operation id, request id
          and the start of the operation-attributes group. */
    | OperationHeader(operationId: int)
      /** A named attribute, or (name None) an additional value of the
          attribute named just before it. */
    | Attribute(tag: ValueTag, name: Option<string>, value: Value)
      /** The end-of-attributes marker, IppTag.getEnd. */
    | EndOfAttributes

  /** Writing until the frame is flipped, then Sealed for reading. */
  datatype Mode = Writing | Sealed

  /** The bytes of a run of fields, given the byte form of each. */
  function Encoded(fs: seq<Field>, wire: Field -> seq<byte>): seq<byte>
  {
    if |fs| == 0 then [] else Encoded(fs[..|fs| - 1], wire) + wire(fs[|fs| - 1])
  }

  /** Encoding a frame piece by piece gives the bytes of the whole. */
  lemma {:induction false} EncodedAppend(a: seq<Field>, b: seq<Field>, wire: Field -> seq<byte>)
    ensures Encoded(a + b, wire) == Encoded(a, wire) + Encoded(b, wire)
  {
    if |b| > 0 {
      var b' := b[..|b| - 1];
      EncodedAppend(a, b', wire);
      assert (a + b)[..|a + b| - 1] == a + b';
      assert (a + b)[|a + b| - 1] == b[|b| - 1];
      assert Encoded(b, wire) == Encoded(b', wire) + wire(b[|b| - 1]);
    } else {
      assert a + b == a;
    }
  }

  /** A growable buffer of fields with Java ByteBuffer's position and limit.
      While Writing, `position` is the number of fields written; `flip`
      seals it with limit := position and position := 0; reads then advance
      `position` towards `limit`. */
  class FrameBuffer {
    var fields: seq<Field>
    var position: nat
    var limit: nat
    var mode: Mode

    ghost predicate Valid()
      reads this
    {
      match mode
      case Writing => position == |fields|
      case Sealed => position <= limit == |fields|
    }

    /** The fields still to be read. */
    function Remaining(): (r: seq<Field>)
      reads this
      requires Valid() && mode == Sealed
      ensures |r| == limit - position
    {
      fields[position..limit]
    }

    /** ByteBuffer.allocateDirect: an empty buffer in write mode. */
    constructor ()
      ensures Valid() && mode == Writing && fields == [] && position == 0
    {
      fields := [];
      position := 0;
      limit := 0;
      mode := Writing;
    }

    /** One IppTag primitive: appends `f` at the current position. */
    method Put(f: Field)
      requires Valid() && mode == Writing
      modifies this
      ensures Valid() && mode == Writing
      ensures fields == old(fields) + [f] && position == old(position) + 1
      ensures limit == old(limit)
    {
      fields := fields + [f];
      position := position + 1;
    }

    /** ByteBuffer.flip: the written fields become readable from the start. */
    method Flip()
      requires Valid() && mode == Writing
      modifies this
      ensures Valid() && mode == Sealed
      ensures fields == old(fields) && limit == old(position) && position == 0
      ensures Remaining() == old(fields)
    {
      limit := position;
      position := 0;
      mode := Sealed;
    }

    /** ByteBuffer.get(dst) with a destination of length `n`: reads the next
        `n` fields, or fails (BufferUnderflowException) and reads nothing
        when fewer than `n` remain. */
    method Get(n: nat) returns (ok: bool, items: seq<Field>)
      requires Valid() && mode == Sealed
      modifies this
      ensures Valid() && mode == Sealed && fields == old(fields) && limit == old(limit)
      ensures ok <==> n <= old(limit - position)
      ensures ok ==> items == old(Remaining())[..n] && position == old(position) + n
      ensures !ok ==> items == [] && position == old(position)
    {
      if n <= limit - position {
        ok := true;
        items := fields[position..position + n];
        position := position + n;
      } else {
        ok := false;
        items := [];
      }
    }
  }
}
