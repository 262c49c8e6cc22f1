/**
  Typed reads and writes over a byte buffer, in big- or little-endian order. The library has one
  stream type per order with the same methods; here the order is a parameter.
 */
module EndianStream {
  import opened Common
  import opened Division
  import Wire

  type byte = Wire.byte
  type uint16 = x: int | 0 <= x < 0x1_0000
  type uint32 = x: int | 0 <= x < 0x1_0000_0000
  type uint64 = x: int | 0 <= x < 0x1_0000_0000_0000_0000

  datatype Order = Big | Little

  // ---------------------------------------------------------------- fixed-width fields

  function Pow256(width: nat): nat {
    if width == 0 then 1 else 256 * Pow256(width - 1)
  }

  function LittleBytes(v: nat, width: nat): (b: seq<byte>)
    ensures |b| == width
  {
    if width == 0 then [] else [v % 256] + LittleBytes(v / 256, width - 1)
  }

  function BigBytes(v: nat, width: nat): (b: seq<byte>)
    ensures |b| == width
  {
    if width == 0 then [] else BigBytes(v / 256, width - 1) + [v % 256]
  }

  function LittleValue(b: seq<byte>): nat {
    if b == [] then 0 else b[0] as int + 256 * LittleValue(b[1..])
  }

  function BigValue(b: seq<byte>): nat {
    if b == [] then 0 else 256 * BigValue(b[..|b| - 1]) + b[|b| - 1] as int
  }

  function Put(o: Order, v: nat, width: nat): (b: seq<byte>)
    ensures |b| == width
  {
    if o.Big? then BigBytes(v, width) else LittleBytes(v, width)
  }

  function Get(o: Order, b: seq<byte>): nat {
    if o.Big? then BigValue(b) else LittleValue(b)
  }

  function Reversed(b: seq<byte>): seq<byte> {
    if b == [] then [] else Reversed(b[1..]) + [b[0]]
  }

  /** The two encodings of a field are each other reversed. */
  lemma {:induction false} ByteReversal(v: nat, width: nat)
    ensures Put(Big, v, width) == Reversed(Put(Little, v, width))
  {
    if width > 0 {
      ByteReversal(v / 256, width - 1);
      assert LittleBytes(v, width)[1..] == LittleBytes(v / 256, width - 1);
    }
  }

  lemma {:induction false} LittleRoundTrip(v: nat, width: nat)
    requires v < Pow256(width)
    ensures LittleValue(LittleBytes(v, width)) == v
  {
    if width > 0 {
      LittleRoundTrip(v / 256, width - 1);
      assert LittleBytes(v, width)[1..] == LittleBytes(v / 256, width - 1);
    }
  }

  lemma {:induction false} BigRoundTrip(v: nat, width: nat)
    requires v < Pow256(width)
    ensures BigValue(BigBytes(v, width)) == v
  {
    if width > 0 {
      BigRoundTrip(v / 256, width - 1);
      assert BigBytes(v, width)[..width - 1] == BigBytes(v / 256, width - 1);
    }
  }

  lemma FixedRoundTrip(o: Order, v: nat, width: nat)
    requires v < Pow256(width)
    ensures Get(o, Put(o, v, width)) == v
  {
    if o.Big? {
      BigRoundTrip(v, width);
    } else {
      LittleRoundTrip(v, width);
    }
  }

  lemma {:induction false} ValueInRange(o: Order, b: seq<byte>)
    ensures Get(o, b) < Pow256(|b|)
  {
    if b != [] {
      ValueInRange(o, if o.Big? then b[..|b| - 1] else b[1..]);
    }
  }

  lemma Widths()
    ensures Pow256(1) == 0x100 && Pow256(2) == 0x1_0000
    ensures Pow256(4) == 0x1_0000_0000 && Pow256(8) == 0x1_0000_0000_0000_0000
  {
    assert Pow256(3) == 256 * Pow256(2) && Pow256(5) == 256 * Pow256(4);
    assert Pow256(6) == 256 * Pow256(5) && Pow256(7) == 256 * Pow256(6);
  }

  lemma PowPositive(k: nat)
    ensures Pow256(k) > 0
  {
  }

  lemma DivTwice(v: nat, p: nat)
    requires p > 0
    ensures v / 256 / p == v / (256 * p)
  {
    var q, r := v / (256 * p), v % (256 * p);
    assert v == 256 * (p * q) + r && 0 <= r < 256 * p;
    assert v / 256 == p * q + r / 256 && 0 <= r / 256 < p;
    assert p * (q + 1) == p * q + p;
    Quotient(v / 256, p, q);
    Quotient(v / 256, p, q + 1);
  }

  /** Byte k of a field is its k-th digit to base 256, counted from the least significant end if little-endian. */
  lemma {:induction false} ByteAt(o: Order, v: nat, width: nat, k: nat)
    requires k < width
    ensures Pow256(k) > 0 && Pow256(width - 1 - k) > 0
    ensures Put(o, v, width)[k] as int == (if o.Big? then v / Pow256(width - 1 - k) else v / Pow256(k)) % 256
  {
    PowPositive(k);
    PowPositive(width - 1 - k);
    if o.Big? && k < width - 1 {
      ByteAt(o, v / 256, width - 1, k);
      DivTwice(v, Pow256(width - 2 - k));
    } else if o.Little? && k > 0 {
      ByteAt(o, v / 256, width - 1, k - 1);
      DivTwice(v, Pow256(k - 1));
    }
  }

  /** Most significant byte first is the order of the packet header's fields. */
  lemma BigIsHeaderOrder(v: uint16)
    ensures Put(Big, v, 2) == Wire.PutUint16(v)
  {
    assert BigBytes(v / 256, 1) == [v / 256];
  }

  // ---------------------------------------------------------------- scripts

  datatype Field =
    | U8(b: byte) | U16(h: uint16) | U32(w: uint32) | U64(d: uint64)
    | Buff(data: seq<byte>) | Str(text: seq<byte>)

  datatype Kind = KUint(width: nat) | KBuff(size: nat) | KStr

  datatype Stream = Stream(buf: seq<byte>, pos: nat)

  const MAX_STRING: nat := 65535

  function KindOf(f: Field): Kind {
    match f
    case U8(_) => KUint(1) case U16(_) => KUint(2) case U32(_) => KUint(4) case U64(_) => KUint(8)
    case Buff(data) => KBuff(|data|)
    case Str(_) => KStr
  }

  function NumberOf(f: Field): nat
    requires !f.Buff? && !f.Str?
  {
    match f case U8(b) => b case U16(h) => h case U32(w) => w case U64(d) => d
  }

  /** The bytes of one write; a string's length is cut to 16 bits, its contents are not. */
  function Encode(o: Order, f: Field): seq<byte> {
    match f
    case Buff(data) => data
    case Str(text) => Put(o, |text| % 65536, 2) + text
    case _ => Put(o, NumberOf(f), KindOf(f).width)
  }

  function EncodeAll(o: Order, fs: seq<Field>): seq<byte> {
    if fs == [] then [] else Encode(o, fs[0]) + EncodeAll(o, fs[1..])
  }

  function Splice(buf: seq<byte>, pos: nat, bytes: seq<byte>): seq<byte>
    requires pos + |bytes| <= |buf|
  {
    buf[..pos] + bytes + buf[pos + |bytes|..]
  }

  function PutBytes(s: Stream, bytes: seq<byte>): (Stream, bool)
    requires s.pos <= |s.buf|
  {
    if |s.buf| - s.pos < |bytes| then (s, false)
    else (Stream(Splice(s.buf, s.pos, bytes), s.pos + |bytes|), true)
  }

  /** One write: a string is written as a length and then its bytes, so it can fail half way. */
  function WriteField(o: Order, s: Stream, f: Field): (r: (Stream, bool))
    requires s.pos <= |s.buf|
    ensures |r.0.buf| == |s.buf| && r.0.pos <= |r.0.buf|
  {
    if f.Str? then
      var (s1, ok) := PutBytes(s, Put(o, |f.text| % 65536, 2));
      if ok then PutBytes(s1, f.text) else (s1, false)
    else PutBytes(s, Encode(o, f))
  }

  function WriteScript(o: Order, s: Stream, fs: seq<Field>): (r: (Stream, bool))
    requires s.pos <= |s.buf|
    ensures |r.0.buf| == |s.buf| && r.0.pos <= |r.0.buf|
    decreases |fs|
  {
    if fs == [] then (s, true)
    else
      var (s1, ok) := WriteField(o, s, fs[0]);
      if ok then WriteScript(o, s1, fs[1..]) else (s1, false)
  }

  function Number(width: nat, v: nat): Option<Field> {
    if width == 1 && v < 0x100 then Some(U8(v))
    else if width == 2 && v < 0x1_0000 then Some(U16(v))
    else if width == 4 && v < 0x1_0000_0000 then Some(U32(v))
    else if width == 8 && v < 0x1_0000_0000_0000_0000 then Some(U64(v))
    else None
  }

  function ReadField(o: Order, s: Stream, k: Kind): (r: (Stream, Option<Field>))
    requires s.pos <= |s.buf|
    ensures r.0.buf == s.buf && r.0.pos <= |s.buf|
  {
    match k
    case KUint(width) =>
      if |s.buf| - s.pos < width then (s, None)
      else (s.(pos := s.pos + width), Number(width, Get(o, s.buf[s.pos..s.pos + width])))
    case KBuff(size) =>
      if |s.buf| - s.pos < size then (s, None)
      else (s.(pos := s.pos + size), Some(Buff(s.buf[s.pos..s.pos + size])))
    case KStr =>
      if |s.buf| - s.pos < 2 then (s, None)
      else
        var size := Get(o, s.buf[s.pos..s.pos + 2]);
        if |s.buf| - (s.pos + 2) < size then (s.(pos := s.pos + 2), None)
        else (s.(pos := s.pos + 2 + size), Some(Str(s.buf[s.pos + 2..s.pos + 2 + size])))
  }

  function ReadScript(o: Order, s: Stream, ks: seq<Kind>): Option<seq<Field>>
    requires s.pos <= |s.buf|
    decreases |ks|
  {
    if ks == [] then Some([])
    else
      var (s1, f) := ReadField(o, s, ks[0]);
      if f.None? then None
      else
        var rest := ReadScript(o, s1, ks[1..]);
        if rest.None? then None else Some([f.value] + rest.value)
  }

  function Kinds(fs: seq<Field>): seq<Kind> {
    if fs == [] then [] else [KindOf(fs[0])] + Kinds(fs[1..])
  }

  predicate Representable(f: Field) {
    f.Str? ==> |f.text| <= MAX_STRING
  }

  // ---------------------------------------------------------------- writing

  lemma PutTwice(s: Stream, a: seq<byte>, b: seq<byte>)
    requires s.pos + |a| + |b| <= |s.buf|
    ensures PutBytes(PutBytes(s, a).0, b) == PutBytes(s, a + b)
  {
    var one := Splice(s.buf, s.pos, a);
    assert Splice(one, s.pos + |a|, b) == Splice(s.buf, s.pos, a + b);
  }

  lemma WriteFieldExact(o: Order, s: Stream, f: Field)
    requires s.pos <= |s.buf|
    ensures WriteField(o, s, f).1 <==> s.pos + |Encode(o, f)| <= |s.buf|
    ensures WriteField(o, s, f).1 ==> WriteField(o, s, f) == PutBytes(s, Encode(o, f))
  {
    if f.Str? && s.pos + |Encode(o, f)| <= |s.buf| {
      PutTwice(s, Put(o, |f.text| % 65536, 2), f.text);
    }
  }

  /**
    A script of writes succeeds if and only if its bytes fit, and then it puts exactly them at the
    position and touches nothing else.
   */
  lemma {:induction false} WriteScriptExact(o: Order, s: Stream, fs: seq<Field>)
    requires s.pos <= |s.buf|
    ensures WriteScript(o, s, fs).1 <==> s.pos + |EncodeAll(o, fs)| <= |s.buf|
    ensures WriteScript(o, s, fs).1 ==>
              WriteScript(o, s, fs).0 ==
              Stream(Splice(s.buf, s.pos, EncodeAll(o, fs)), s.pos + |EncodeAll(o, fs)|)
    decreases |fs|
  {
    hide Encode, WriteField;
    if fs == [] {
      assert Splice(s.buf, s.pos, []) == s.buf;
    } else {
      WriteFieldExact(o, s, fs[0]);
      var s1 := WriteField(o, s, fs[0]).0;
      if WriteField(o, s, fs[0]).1 {
        WriteScriptExact(o, s1, fs[1..]);
        if s.pos + |EncodeAll(o, fs)| <= |s.buf| {
          PutTwice(s, Encode(o, fs[0]), EncodeAll(o, fs[1..]));
        }
      }
    }
  }

  /** A typed read fails only for want of bytes. */
  lemma ReadTotal(o: Order, s: Stream, width: nat)
    requires s.pos <= |s.buf| && width in {1, 2, 4, 8}
    ensures ReadField(o, s, KUint(width)).1.Some? <==> width <= |s.buf| - s.pos
  {
    Widths();
    if width <= |s.buf| - s.pos {
      ValueInRange(o, s.buf[s.pos..s.pos + width]);
    }
  }

  /** A string is its length in 16 bits, in the stream's order, and then its bytes. */
  lemma StringLayout(o: Order, text: seq<byte>)
    ensures var b, n := Encode(o, Str(text)), |text| % 65536;
            && |b| == 2 + |text| && b[2..] == text
            && b[0] as int == (if o.Big? then n / 256 else n % 256)
            && b[1] as int == (if o.Big? then n % 256 else n / 256)
  {
    var n := |text| % 65536;
    ByteAt(o, n, 2, 0);
    ByteAt(o, n, 2, 1);
    assert Pow256(0) == 1 && Pow256(1) == 256;
    assert Encode(o, Str(text))[2..] == text;
  }

  /** A write that fails leaves the stream as it was, but for the length of a string whose bytes do not fit. */
  lemma FailedWrite(o: Order, s: Stream, f: Field)
    requires s.pos <= |s.buf| && !WriteField(o, s, f).1
    ensures var s' := WriteField(o, s, f).0;
            if f.Str? && |s.buf| - s.pos >= 2
            then s'.pos == s.pos + 2 && s'.buf == s.buf[..s.pos] + Encode(o, f)[..2] + s.buf[s.pos + 2..]
            else s' == s
  {
    if f.Str? {
      assert Encode(o, f)[..2] == Put(o, |f.text| % 65536, 2);
    }
  }

  /** A read that fails leaves the position, but for the length of a string whose bytes are not all there. */
  lemma FailedRead(o: Order, s: Stream, k: Kind)
    requires s.pos <= |s.buf| && ReadField(o, s, k).1.None? && (k.KUint? ==> k.width in {1, 2, 4, 8})
    ensures ReadField(o, s, k).0 == s.(pos := if k.KStr? && |s.buf| - s.pos >= 2 then s.pos + 2 else s.pos)
  {
    if k.KUint? {
      ReadTotal(o, s, k.width);
    }
  }

  // ---------------------------------------------------------------- reading back

  /** What the buffer holds at the position. */
  predicate At(s: Stream, bytes: seq<byte>) {
    s.pos + |bytes| <= |s.buf| && s.buf[s.pos..s.pos + |bytes|] == bytes
  }

  lemma AtSplit(s: Stream, a: seq<byte>, b: seq<byte>)
    requires At(s, a + b)
    ensures At(s, a) && At(s.(pos := s.pos + |a|), b) && s.pos + |a| <= |s.buf|
  {
    assert s.buf[s.pos..s.pos + |a|] == (a + b)[..|a|];
    assert s.buf[s.pos + |a|..s.pos + |a| + |b|] == (a + b)[|a|..];
  }

  lemma ReadNumber(o: Order, s: Stream, f: Field)
    requires !f.Buff? && !f.Str? && At(s, Encode(o, f))
    ensures ReadField(o, s, KindOf(f)) == (s.(pos := s.pos + |Encode(o, f)|), Some(f))
  {
    Widths();
    FixedRoundTrip(o, NumberOf(f), KindOf(f).width);
  }

  /** A string comes back cut to its length modulo 2^16. */
  lemma ReadString(o: Order, s: Stream, text: seq<byte>)
    requires At(s, Encode(o, Str(text)))
    ensures var n := |text| % 65536;
            ReadField(o, s, KStr) == (s.(pos := s.pos + 2 + n), Some(Str(text[..n])))
  {
    Widths();
    var n := |text| % 65536;
    FixedRoundTrip(o, n, 2);
    AtSplit(s, Put(o, n, 2), text);
    assert text == text[..n] + text[n..];
    AtSplit(s.(pos := s.pos + 2), text[..n], text[n..]);
  }

  /** Reading a field back gives it again if and only if it is not a string of 65536 bytes or more. */
  lemma ReadBackField(o: Order, s: Stream, f: Field)
    requires At(s, Encode(o, f))
    ensures ReadField(o, s, KindOf(f)).1 == Some(f) <==> Representable(f)
    ensures Representable(f) ==> ReadField(o, s, KindOf(f)).0 == s.(pos := s.pos + |Encode(o, f)|)
    ensures ReadField(o, s, KindOf(f)).1.Some?
  {
    match f
    case Str(text) =>
      ReadString(o, s, text);
      assert |text| <= MAX_STRING ==> text[..|text| % 65536] == text;
    case Buff(data) =>
    case _ => ReadNumber(o, s, f);
  }

  predicate AllRepresentable(fs: seq<Field>) {
    fs == [] || (Representable(fs[0]) && AllRepresentable(fs[1..]))
  }

  lemma ReadFirst(o: Order, s: Stream, fs: seq<Field>)
    requires s.pos <= |s.buf| && fs != []
    ensures var r := ReadField(o, s, KindOf(fs[0]));
            ReadScript(o, s, Kinds(fs)) == Some(fs) <==>
            r.1 == Some(fs[0]) && ReadScript(o, r.0, Kinds(fs[1..])) == Some(fs[1..])
  {
    hide ReadField, KindOf;
    assert Kinds(fs)[1..] == Kinds(fs[1..]) && Kinds(fs)[0] == KindOf(fs[0]);
    var (s1, f) := ReadField(o, s, KindOf(fs[0]));
    if f.Some? && ReadScript(o, s1, Kinds(fs[1..])).Some? {
      var rest := ReadScript(o, s1, Kinds(fs[1..])).value;
      assert ([f.value] + rest)[1..] == rest;
      assert fs == [fs[0]] + fs[1..];
    }
  }

  /** Reading a script back comes down to its first field and the rest. */
  lemma ReadBackFirst(o: Order, s: Stream, fs: seq<Field>, s1: Stream)
    requires fs != [] && At(s, EncodeAll(o, fs)) && s1 == s.(pos := s.pos + |Encode(o, fs[0])|)
    ensures At(s1, EncodeAll(o, fs[1..]))
    ensures ReadScript(o, s, Kinds(fs)) == Some(fs) <==>
              Representable(fs[0]) && ReadScript(o, s1, Kinds(fs[1..])) == Some(fs[1..])
  {
    hide *;
    AtFirst(o, s, fs);
    ReadBackField(o, s, fs[0]);
    ReadFirst(o, s, fs);
  }

  lemma AtFirst(o: Order, s: Stream, fs: seq<Field>)
    requires fs != [] && At(s, EncodeAll(o, fs))
    ensures At(s, Encode(o, fs[0])) && s.pos + |Encode(o, fs[0])| <= |s.buf|
    ensures At(s.(pos := s.pos + |Encode(o, fs[0])|), EncodeAll(o, fs[1..]))
  {
    hide Encode;
    AtSplit(s, Encode(o, fs[0]), EncodeAll(o, fs[1..]));
  }

  lemma {:induction false} ReadBackAt(o: Order, s: Stream, fs: seq<Field>)
    requires At(s, EncodeAll(o, fs))
    ensures ReadScript(o, s, Kinds(fs)) == Some(fs) <==> AllRepresentable(fs)
    decreases |fs|
  {
    if fs != [] {
      hide *;
      var s1 := s.(pos := s.pos + |Encode(o, fs[0])|);
      ReadBackFirst(o, s, fs, s1);
      ReadBackAt(o, s1, fs[1..]);
      AllFirst(fs);
    }
  }

  lemma AllFirst(fs: seq<Field>)
    requires fs != []
    ensures AllRepresentable(fs) <==> Representable(fs[0]) && AllRepresentable(fs[1..])
  {
  }

  lemma {:induction false} RepresentableEach(fs: seq<Field>)
    ensures AllRepresentable(fs) <==> forall i :: 0 <= i < |fs| ==> Representable(fs[i])
  {
    if fs != [] {
      RepresentableEach(fs[1..]);
      hide Representable;
      assert forall i :: 1 <= i < |fs| ==> fs[i] == fs[1..][i - 1];
      assert forall i :: 0 <= i < |fs[1..]| ==> fs[1..][i] == fs[i + 1];
    }
  }

  /**
    Scripts: after a script of typed writes has succeeded, reading with the same kinds from where it
    began returns the same values if and only if no string was 65536 bytes or longer.
   */
  lemma ScriptRoundTrip(o: Order, s: Stream, fs: seq<Field>)
    requires s.pos <= |s.buf| && WriteScript(o, s, fs).1
    ensures var written := WriteScript(o, s, fs).0;
            ReadScript(o, Stream(written.buf, s.pos), Kinds(fs)) == Some(fs) <==>
            forall i :: 0 <= i < |fs| ==> Representable(fs[i])
  {
    WriteScriptExact(o, s, fs);
    hide WriteScript, ReadScript, EncodeAll;
    var back := Stream(WriteScript(o, s, fs).0.buf, s.pos);
    var enc := EncodeAll(o, fs);
    assert back.buf[s.pos..s.pos + |enc|] == enc;
    ReadBackAt(o, back, fs);
    RepresentableEach(fs);
  }

  // ---------------------------------------------------------------- the stream objects

  class ByteStream {
    const order: Order
    var pos: nat
    var buff: array<byte>

    ghost predicate Valid()
      reads this
    {
      pos <= buff.Length
    }

    ghost function Abs(): Stream
      reads this, buff
    {
      Stream(buff[..], pos)
    }

    constructor (order: Order, buff: array<byte>)
      ensures Valid() && this.order == order && this.buff == buff && pos == 0
    {
      this.order, this.buff, pos := order, buff, 0;
    }

    method Reset(b: array<byte>)
      modifies this
      ensures Valid() && pos == 0 && buff == b
    {
      pos, buff := 0, b;
    }

    function Left(): int
      reads this
    {
      buff.Length - pos
    }

    /** Stores bytes at the position if there is room. */
    method Store(bytes: seq<byte>) returns (ok: bool)
      requires Valid()
      modifies this`pos, buff
      ensures Valid() && (Abs(), ok) == PutBytes(old(Abs()), bytes)
    {
      if Left() < |bytes| {
        return false;
      }
      forall i | 0 <= i < |bytes| {
        buff[pos + i] := bytes[i];
      }
      assert buff[..] == Splice(old(buff[..]), pos, bytes);
      pos := pos + |bytes|;
      return true;
    }

    /** WriteByte, WriteUint16, WriteUint32, WriteUint64. */
    method WriteNumber(f: Field) returns (ok: bool)
      requires Valid() && !f.Buff? && !f.Str?
      modifies this`pos, buff
      ensures Valid() && (Abs(), ok) == WriteField(order, old(Abs()), f)
    {
      ok := Store(Put(order, NumberOf(f), KindOf(f).width));
    }

    /** WriteBuff; None is a nil slice, which only the big-endian stream refuses. */
    method WriteBuff(data: Option<seq<byte>>) returns (ok: bool)
      requires Valid()
      modifies this`pos, buff
      ensures Valid()
      ensures data.Some? ==> (Abs(), ok) == WriteField(order, old(Abs()), Buff(data.value))
      ensures data.None? ==> Abs() == old(Abs()) && ok == order.Little?
    {
      if data.None? {
        return order.Little?;
      }
      ok := Store(data.value);
    }

    method WriteString(text: seq<byte>) returns (ok: bool)
      requires Valid()
      modifies this`pos, buff
      ensures Valid() && (Abs(), ok) == WriteField(order, old(Abs()), Str(text))
    {
      ok := Store(Put(order, |text| % 65536, 2));
      if !ok {
        return false;
      }
      ok := Store(text);
    }

    /** ReadByte, ReadUint16, ReadUint32, ReadUint64. */
    method ReadNumber(width: nat) returns (r: Option<nat>)
      requires Valid()
      modifies this`pos
      ensures Valid()
      ensures r.Some? <==> width <= old(Left())
      ensures if r.Some? then pos == old(pos) + width && r.value == Get(order, buff[old(pos)..pos])
              else pos == old(pos)
    {
      if Left() < width {
        return None;
      }
      r := Some(Get(order, buff[pos..pos + width]));
      pos := pos + width;
    }

    method ReadBuff(size: nat) returns (r: Option<seq<byte>>)
      requires Valid()
      modifies this`pos
      ensures Valid()
      ensures r == match ReadField(order, old(Abs()), KBuff(size)).1 case Some(f) => Some(f.data) case None => None
      ensures Abs() == ReadField(order, old(Abs()), KBuff(size)).0
    {
      if Left() < size {
        return None;
      }
      r := Some(buff[pos..pos + size]);
      pos := pos + size;
    }

    method ReadString() returns (r: Option<seq<byte>>)
      requires Valid()
      modifies this`pos
      ensures Valid()
      ensures r == match ReadField(order, old(Abs()), KStr).1 case Some(f) => Some(f.text) case None => None
      ensures Abs() == ReadField(order, old(Abs()), KStr).0
    {
      var n := ReadNumber(2);
      if n.None? {
        return None;
      }
      r := ReadBuff(n.value);
    }

    /** CopyBuff: as ReadBuff, but the position stays. */
    method CopyBuff(b: array<byte>) returns (ok: bool)
      requires Valid()
      modifies b
      ensures ok <==> b.Length <= Left()
      ensures if ok then b[..] == old(buff[pos..pos + b.Length]) else b[..] == old(b[..])
    {
      if Left() < b.Length {
        return false;
      }
      forall i | 0 <= i < b.Length {
        b[i] := buff[pos + i];
      }
      return true;
    }
  }
}
