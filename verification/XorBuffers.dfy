/** xorbuf: exclusive-or of a mask into a buffer. */
module XorBuffers {

  import opened AesBlock

  function XorBytes(a: seq<byte>, b: seq<byte>): (c: seq<byte>)
    requires |a| == |b|
    ensures |c| == |a|
  {
    seq(|a|, i requires 0 <= i < |a| => Add(a[i], b[i]))
  }

  lemma XorBytesTwice(a: seq<byte>, b: seq<byte>)
    requires |a| == |b|
    ensures XorBytes(XorBytes(a, b), b) == a && XorBytes(b, XorBytes(b, a)) == a && XorBytes(a, b) == XorBytes(b, a)
  {
    forall i | 0 <= i < |a|
      ensures Add(Add(a[i], b[i]), b[i]) == a[i] && Add(b[i], Add(b[i], a[i])) == a[i]
      ensures Add(a[i], b[i]) == Add(b[i], a[i])
    {
      AddCancels(a[i], b[i]);
    }
    hide Add;
  }

  lemma AddCancels(a: byte, b: byte)
    ensures Add(Add(a, b), b) == a && Add(b, Add(b, a)) == a && Add(a, b) == Add(b, a)
  {
    hide Add;
    AddIsAbelian(a, b, b);
    AddIsAbelian(b, b, 0);
    AddIsAbelian(a, 0, 0);
    AddIsAbelian(b, b, a);
    AddIsAbelian(0, a, 0);
    AddIsAbelian(b, a, 0);
  }

  /** xorbuf */
  method XorInto(buf: array<byte>, mask: seq<byte>)
    requires |mask| == buf.Length
    modifies buf
    ensures buf[..] == XorBytes(old(buf[..]), mask)
  {
    hide Add;
    for i := 0 to |mask|
      invariant forall j :: 0 <= j < i ==> buf[j] == Add(old(buf[j]), mask[j])
      invariant forall j :: i <= j < buf.Length ==> buf[j] == old(buf[j])
    {
      buf[i] := Add(buf[i], mask[i]);
    }
  }
}
