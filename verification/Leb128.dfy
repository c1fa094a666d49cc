/** Unsigned LEB128 (section 5.2.2 of the WebAssembly Core Specification 1.0) as the auditor
    reads it (readULEB128 in engine/runtime/audit.go). */
module Leb128 {
  import opened Bytes
  import opened Common

  /** A left shift by one of the five amounts the reader uses, before it is cut to 32 bits. */
  function Shifted(bits: nat, shift: nat): nat
  {
    if shift == 0 then bits
    else if shift == 7 then 0x80 * bits
    else if shift == 14 then 0x4000 * bits
    else if shift == 21 then 0x20_0000 * bits
    else 0x1000_0000 * bits
  }

  /** What the bytes from position i on contribute, and how many are read; None once a fifth
      byte still asks for more. Input that ends early is taken as it is. */
  function Tail(data: seq<byte>, i: nat): Option<(nat, nat)>
    decreases |data|
  {
    if data == [] then Some((0, 0))
    else if data[0] < 128 then Some((Shifted(data[0], 7 * i), 1))
    else if i >= 4 then None
    else match Tail(data[1..], i + 1)
      case None => None
      case Some((v, n)) => Some((Shifted(data[0] - 128, 7 * i) + v, n + 1))
  }

  /** The value, cut to 32 bits, and the bytes read; (0, 0) is the failure. */
  function Read(data: seq<byte>): (nat, nat)
  {
    match Tail(data, 0)
    case None => (0, 0)
    case Some((v, n)) => (v % U32, n)
  }

  /** The shortest encoding. */
  function Encode(v: nat): (data: seq<byte>)
    ensures data != []
  {
    if v < 128 then [v] else [128 + v % 128] + Encode(v / 128)
  }

  /** Bitwise or is addition here: each byte's bits lie above all the earlier ones, and a left
      shift drops what leaves the 32-bit word. */
  method ReadULEB128(data: seq<byte>) returns (result: nat, bytesRead: nat)
    ensures (result, bytesRead) == Read(data)
  {
    hide Tail, Shifted;
    result, bytesRead := 0, 0;
    var shift := 0;
    ghost var sum: nat := 0;
    assert data[0..] == data;
    TailUnfold(data, 0);
    for i := 0 to |data|
      invariant i <= 4 && shift == 7 * i && bytesRead == i
      invariant result == sum % U32
      invariant Tail(data, 0) == After(Tail(data[i..], i), sum, i)
    {
      // The source first tests i >= 5; the shift test below always returns before that.
      var b := data[i];
      TailUnfold(data[i..], i);
      assert data[i..][1..] == data[i + 1..];
      var bits := Shifted(b % 128, shift);
      AddWrapped(sum, bits);
      result := (result + bits % U32) % U32;
      bytesRead := bytesRead + 1;
      if b < 128 {
        return;
      }
      sum := sum + bits;
      shift := shift + 7;
      if shift >= 32 {
        return 0, 0;
      }
    }
    TailUnfold(data[|data|..], |data|);
  }

  /** A tail's reading, once the bytes before it are counted in. */
  function After(tail: Option<(nat, nat)>, sum: nat, read: nat): Option<(nat, nat)>
  {
    match tail case None => None case Some((v, n)) => Some((sum + v, n + read))
  }

  lemma TailUnfold(data: seq<byte>, i: nat)
    ensures data == [] ==> Tail(data, i) == Some((0, 0))
    ensures data != [] && data[0] < 128 ==> Tail(data, i) == Some((Shifted(data[0] % 128, 7 * i), 1))
    ensures data != [] && data[0] >= 128 ==>
              Tail(data, i) == if i >= 4 then None else After(Tail(data[1..], i + 1), Shifted(data[0] % 128, 7 * i), 1)
  {
  }

  lemma AddWrapped(a: nat, b: nat)
    ensures (a + b) % U32 == (a % U32 + b % U32) % U32
  {
  }

  /** One more than the largest value that fits in the bytes from i on. */
  function Room(i: nat): nat
  {
    Shifted(128, 28 - 7 * (if i < 4 then i else 4))
  }

  lemma {:induction false} EncodeTail(v: nat, rest: seq<byte>, i: nat)
    requires i <= 4 && v < Room(i)
    ensures Tail(Encode(v) + rest, i) == Some((Shifted(v, 7 * i), |Encode(v)|))
    ensures |Encode(v)| <= 5 - i
    decreases 5 - i
  {
    hide Tail;
    TailUnfold(Encode(v) + rest, i);
    if v >= 128 {
      EncodeTail(v / 128, rest, i + 1);
      assert (Encode(v) + rest)[1..] == Encode(v / 128) + rest;
    } else {
      assert (Encode(v) + rest)[0] == v;
    }
  }

  /** Every 32-bit value is read back, whatever follows it. */
  lemma ReadEncoded(v: nat, rest: seq<byte>)
    requires v < U32
    ensures Read(Encode(v) + rest) == (v, |Encode(v)|)
    ensures |Encode(v)| <= 5
  {
    hide Tail, Encode;
    EncodeTail(v, rest, 0);
  }

  /** Never more bytes than there are, and at most five. */
  lemma {:induction false} TailBounds(data: seq<byte>, i: nat)
    requires i <= 4
    ensures Tail(data, i).Some? ==> Tail(data, i).value.1 <= |data| && Tail(data, i).value.1 <= 5 - i
    ensures Tail(data, i).Some? && data != [] ==> Tail(data, i).value.1 >= 1
    ensures Tail(data, i) == None <==> |data| >= 5 - i && forall k :: 0 <= k < 5 - i ==> data[k] >= 128
    decreases |data|
  {
    if data != [] && data[0] >= 128 && i < 4 {
      TailBounds(data[1..], i + 1);
      assert forall k :: 1 <= k < |data| ==> data[k] == data[1..][k - 1];
      assert forall k :: 0 <= k < |data| - 1 ==> data[1..][k] == data[k + 1];
    }
  }

  /** On any input the reader stays inside it, reads at most five bytes, and fails exactly on an
      empty input and on five bytes that all announce another. */
  lemma ReadBounds(data: seq<byte>)
    ensures Read(data).0 < U32 && Read(data).1 <= |data| && Read(data).1 <= 5
    ensures Read(data).1 == 0 <==> data == [] || (|data| >= 5 && forall k :: 0 <= k < 5 ==> data[k] >= 128)
  {
    TailBounds(data, 0);
  }

  /** The number whose 7-bit groups these bytes carry, the lowest first. */
  function Groups(data: seq<byte>): nat
  {
    if data == [] then 0 else data[0] % 128 + 128 * Groups(data[1..])
  }

  lemma {:induction false} TailValue(data: seq<byte>, i: nat)
    requires i <= 4 && Tail(data, i).Some?
    ensures var (v, n) := Tail(data, i).value;
            n <= |data| && v == Shifted(Groups(data[..n]), 7 * i)
            && (forall k :: 0 <= k < n - 1 ==> data[k] >= 128) && (n < |data| ==> n > 0 && data[n - 1] < 128)
    decreases |data|
  {
    hide Tail;
    TailUnfold(data, i);
    if data != [] && data[0] >= 128 {
      TailValue(data[1..], i + 1);
      var n := Tail(data[1..], i + 1).value.1;
      assert data[..n + 1][1..] == data[1..][..n];
      assert forall k :: 1 <= k < |data| ==> data[k] == data[1..][k - 1];
    } else if data != [] {
      assert data[..1][1..] == [];
    }
  }

  /** What any readable bytes are read as: the sum of their 7-bit groups, modulo 2^32, up to the
      first byte that announces no other, or to the end of the input. */
  lemma ReadValue(data: seq<byte>)
    requires Read(data).1 > 0
    ensures var (v, n) := Read(data);
            n <= |data| && v == Groups(data[..n]) % U32
            && (forall k :: 0 <= k < n - 1 ==> data[k] >= 128) && (n < |data| ==> data[n - 1] < 128)
  {
    hide Tail, Groups;
    TailValue(data, 0);
  }
}
