/** SLIP byte stuffing (the byte values of RFC 1055 plus the repository's own
    CLEAR code) and the Rust `slip_encode` of both the adapter and the
    simulator, which are textually the same function. */
module SlipEncoding {
  import opened Base

  const END: byte := 0xC0
  const ESC: byte := 0xDB
  const ESC_END: byte := 0xDC
  const ESC_ESC: byte := 0xDD
  /** Not part of RFC 1055: the firmware sends ESC CLEAR before each frame. */
  const CLEAR: byte := 0xDE

  /** The wire form of one payload byte. */
  function EscapeByte(b: byte): seq<byte>
  {
    if b == END then [ESC, ESC_END]
    else if b == ESC then [ESC, ESC_ESC]
    else [b]
  }

  /** The wire form of a payload, without frame markers. */
  function Escape(data: seq<byte>): seq<byte>
  {
    if data == [] then [] else EscapeByte(data[0]) + Escape(data[1..])
  }

  /** A payload between two END markers. */
  function Framed(data: seq<byte>): seq<byte>
  {
    [END] + Escape(data) + [END]
  }

  /** How many bytes of `data` need a two-byte substitution. */
  function SpecialCount(data: seq<byte>): nat
  {
    if data == [] then 0
    else (if data[0] == END || data[0] == ESC then 1 else 0) + SpecialCount(data[1..])
  }

  lemma {:induction false} EscapeConcat(xs: seq<byte>, ys: seq<byte>)
    ensures Escape(xs + ys) == Escape(xs) + Escape(ys)
  {
    if xs == [] {
      assert xs + ys == ys;
    } else {
      assert (xs + ys)[1..] == xs[1..] + ys;
      EscapeConcat(xs[1..], ys);
    }
  }

  /** Escaping one more byte of a prefix appends that byte's wire form. */
  lemma EscapePrefixStep(data: seq<byte>, i: nat)
    requires i < |data|
    ensures Escape(data[..i + 1]) == Escape(data[..i]) + EscapeByte(data[i])
  {
    assert data[..i + 1] == data[..i] + [data[i]];
    EscapeConcat(data[..i], [data[i]]);
    assert [data[i]][1..] == [];
  }

  /** Every substituted byte costs exactly one extra wire byte. */
  lemma {:induction false} EscapeLength(data: seq<byte>)
    ensures |Escape(data)| == |data| + SpecialCount(data)
  {
    if data != [] {
      EscapeLength(data[1..]);
    }
  }

  /** No END byte survives escaping. */
  lemma {:induction false} EscapeHasNoEnd(data: seq<byte>)
    ensures forall i :: 0 <= i < |Escape(data)| ==> Escape(data)[i] != END
  {
    if data != [] {
      EscapeHasNoEnd(data[1..]);
      var head, tail := EscapeByte(data[0]), Escape(data[1..]);
      assert Escape(data) == head + tail;
      forall i | 0 <= i < |Escape(data)| ensures Escape(data)[i] != END {
        if i >= |head| {
          assert Escape(data)[i] == tail[i - |head|];
        }
      }
    }
  }

  /** In a framed payload END occurs exactly at the two marker positions. */
  lemma FramedEndPositions(data: seq<byte>)
    ensures |Framed(data)| == |data| + SpecialCount(data) + 2
    ensures forall i :: 0 <= i < |Framed(data)| ==>
      (Framed(data)[i] == END <==> i == 0 || i == |Framed(data)| - 1)
  {
    EscapeLength(data);
    EscapeHasNoEnd(data);
    var f := Framed(data);
    forall i | 0 < i < |f| - 1 ensures f[i] != END {
      assert f[i] == Escape(data)[i - 1];
    }
  }

  /** `slip_encode`: pushes into a growing vector, one payload byte at a time. */
  method SlipEncode(data: seq<byte>) returns (encoded: seq<byte>)
    ensures encoded == Framed(data)
  {
    encoded := [END];
    var i := 0;
    while i < |data|
      invariant 0 <= i <= |data|
      invariant encoded == [END] + Escape(data[..i])
    {
      var b := data[i];
      if b == END {
        encoded := encoded + [ESC, ESC_END];
      } else if b == ESC {
        encoded := encoded + [ESC, ESC_ESC];
      } else {
        encoded := encoded + [b];
      }
      EscapePrefixStep(data, i);
      i := i + 1;
    }
    assert data[..i] == data;
    encoded := encoded + [END];
  }

  /** The two unit tests of the adapter's `slip_encode`. */
  lemma SlipEncodeExamples()
    ensures Framed([0x01, 0x02, 0x03]) == [END, 0x01, 0x02, 0x03, END]
    ensures Framed([0x01, END, 0x03, ESC, 0x05])
         == [END, 0x01, ESC, ESC_END, 0x03, ESC, ESC_ESC, 0x05, END]
  {
    assert Escape([0x05]) == [0x05];
    assert Escape([ESC, 0x05]) == [ESC, ESC_ESC, 0x05];
    assert Escape([0x03, ESC, 0x05]) == [0x03, ESC, ESC_ESC, 0x05];
    assert Escape([END, 0x03, ESC, 0x05]) == [ESC, ESC_END, 0x03, ESC, ESC_ESC, 0x05];
    assert Escape([0x03]) == [0x03];
    assert Escape([0x02, 0x03]) == [0x02, 0x03];
  }
}
