/** Filling and reading message buffers at a moving offset. */
module Wire {
  import opened Bytes

  const LIMIT16 := 0x1_0000
  const LIMIT32 := 0x1_0000_0000
  const NAME_SIZE := 60

  /** A 16-bit number in network order; larger values lose their upper bits, as in the C conversion. */
  function U16(v: nat): (r: Text)
    ensures |r| == 2 && FromU16(r) == v % LIMIT16
    ensures r[0] as int * 256 + r[1] as int == v % 0x1_0000
  {
    var a := v / 256;
    assert v == a / 256 * LIMIT16 + (a % 256 * 256 + v % 256);
    [v / 256 % 256, v % 256]
  }

  /** A counter of 16 bits. */
  function Count16(v: nat): nat {
    v % LIMIT16
  }

  lemma Printed16(v: nat)
    ensures U16(Count16(v)) == U16(v)
  {
    var a, b := v / LIMIT16, v % LIMIT16;
    assert v == a * LIMIT16 + b;
    assert v / 256 == a * 256 + b / 256 && v % 256 == b % 256;
  }

  lemma OneMore16(v: nat)
    ensures Count16(Count16(v) + 1) == Count16(v + 1)
  {
    var a, b := v / LIMIT16, v % LIMIT16;
    if b + 1 < LIMIT16 {
      Remainder(v + 1, a, b + 1);
    } else {
      Remainder(v + 1, a + 1, 0);
    }
  }

  lemma Remainder(v: nat, a: nat, b: nat)
    requires v == a * LIMIT16 + b && b < LIMIT16
    ensures v % LIMIT16 == b
  {
  }

  function FromU16(s: Text): (v: nat)
    requires |s| == 2
    ensures v < LIMIT16
  {
    var hi: nat, lo: nat := s[0], s[1];
    hi * 256 + lo
  }

  function U32(v: nat): (r: Text)
    ensures |r| == 4
    ensures v < LIMIT32 ==> FromU32(r) == v
    ensures v < LIMIT32 ==> r[0] as int * 0x100_0000 + r[1] as int * 0x1_0000 + r[2] as int * 0x100 + r[3] as int == v
  {
    U16(v / LIMIT16) + U16(v)
  }

  function FromU32(s: Text): (v: nat)
    requires |s| == 4
    ensures v < LIMIT32
  {
    FromU16(s[..2]) * LIMIT16 + FromU16(s[2..])
  }

  /** The part of a string that is sent when its length is kept in 16 bits. */
  function Cut16(s: Text): Text {
    s[..|s| % LIMIT16]
  }

  /** A temporary file name in its fixed-size array: the name and NULs. */
  function NameField(name: Text): (r: Text)
    requires |name| < NAME_SIZE
    ensures |r| == NAME_SIZE
  {
    name + seq(NAME_SIZE - |name|, _ => NUL)
  }

  lemma NameFieldText(name: Text)
    requires |name| < NAME_SIZE && NUL !in name
    ensures CString(NameField(name)) == name
  {
    CStringIs(NameField(name), name);
  }

  lemma CStringSame(s: Text)
    requires NUL !in s
    ensures CString(s) == s
  {
    CStringIs(s, s);
  }

  /** x lies at the offset. */
  predicate At(b: Text, offset: nat, x: Text) {
    offset + |x| <= |b| && b[offset..offset + |x|] == x
  }

  lemma AtParts(b: Text, offset: nat, x: Text, y: Text)
    requires At(b, offset, x + y)
    ensures At(b, offset, x) && At(b, offset + |x|, y)
  {
    assert b[offset..offset + |x|] == (x + y)[..|x|];
    assert b[offset + |x|..offset + |x| + |y|] == (x + y)[|x|..];
  }

  lemma Assoc(a: Text, b: Text, c: Text)
    ensures a + b + c == a + (b + c)
  {
  }

  lemma Assoc6(o: Text, a: Text, b: Text, c: Text, d: Text, e: Text, f: Text)
    ensures o + a + b + c + d + e + f == o + (a + (b + (c + (d + (e + f)))))
  {
    Assoc(o + a + b + c + d, e, f);
    Assoc(o + a + b + c, d, e + f);
    Assoc(o + a + b, c, d + (e + f));
    Assoc(o + a, b, c + (d + (e + f)));
    Assoc(o, a, b + (c + (d + (e + f))));
  }

  /** memcpy to the offset; the other bytes stay. */
  method Put(buffer: array<Byte>, offset: nat, x: Text) returns (next: nat)
    requires offset + |x| <= buffer.Length
    modifies buffer
    ensures next == offset + |x| && buffer[..next] == old(buffer[..offset]) + x
    ensures forall k :: next <= k < buffer.Length ==> buffer[k] == old(buffer[k])
  {
    var i := 0;
    while i < |x|
      invariant 0 <= i <= |x|
      invariant forall k :: offset + |x| <= k < buffer.Length ==> buffer[k] == old(buffer[k])
      invariant buffer[..offset + i] == old(buffer[..offset]) + x[..i]
    {
      buffer[offset + i] := x[i];
      i := i + 1;
    }
    assert x[..i] == x;
    next := offset + |x|;
  }

  /** Overrun: the reader would leave the received buffer. */
  datatype Parsed<T> = Ok(value: T, next: nat) | Overrun

  function Read16(b: Text, offset: nat): Parsed<nat> {
    if offset + 2 <= |b| then Ok(FromU16(b[offset..offset + 2]), offset + 2) else Overrun
  }

  function Read32(b: Text, offset: nat): Parsed<nat> {
    if offset + 4 <= |b| then Ok(FromU32(b[offset..offset + 4]), offset + 4) else Overrun
  }

  /** The bytes of a field of known size. */
  function ReadBytes(b: Text, offset: nat, size: nat): Parsed<Text> {
    if offset + size <= |b| then Ok(b[offset..offset + size], offset + size) else Overrun
  }

  /** A length in 16 bits and that many bytes, kept as a C string. */
  function ReadString16(b: Text, offset: nat): Parsed<Text> {
    match Read16(b, offset)
    case Overrun => Overrun
    case Ok(size, o) =>
      match ReadBytes(b, o, size)
      case Overrun => Overrun
      case Ok(s, next) => Ok(CString(s), next)
  }

  function ReadString32(b: Text, offset: nat): Parsed<Text> {
    match Read32(b, offset)
    case Overrun => Overrun
    case Ok(size, o) =>
      match ReadBytes(b, o, size)
      case Overrun => Overrun
      case Ok(s, next) => Ok(CString(s), next)
  }

  function ReadName(b: Text, offset: nat): Parsed<Text> {
    match ReadBytes(b, offset, NAME_SIZE)
    case Overrun => Overrun
    case Ok(s, next) => Ok(CString(s), next)
  }

  lemma ReadBack16(b: Text, offset: nat, v: nat, rest: Text)
    requires At(b, offset, U16(v) + rest) && v < LIMIT16
    ensures Read16(b, offset) == Ok(v, offset + 2) && At(b, offset + 2, rest)
  {
    AtParts(b, offset, U16(v), rest);
  }

  lemma ReadBackString16(b: Text, offset: nat, s: Text, rest: Text)
    requires At(b, offset, U16(|s|) + (Cut16(s) + rest)) && |s| < LIMIT16 && NUL !in s
    ensures ReadString16(b, offset) == Ok(s, offset + 2 + |s|) && At(b, offset + 2 + |s|, rest)
  {
    assert Cut16(s) == s;
    ReadBack16(b, offset, |s|, s + rest);
    AtParts(b, offset + 2, s, rest);
    CStringSame(s);
  }

  lemma ReadBackString32(b: Text, offset: nat, s: Text, rest: Text)
    requires At(b, offset, U32(|s|) + (s + rest)) && |s| < LIMIT32 && NUL !in s
    ensures ReadString32(b, offset) == Ok(s, offset + 4 + |s|) && At(b, offset + 4 + |s|, rest)
  {
    AtParts(b, offset, U32(|s|), s + rest);
    AtParts(b, offset + 4, s, rest);
    CStringSame(s);
  }

  lemma ReadBackName(b: Text, offset: nat, name: Text, rest: Text)
    requires |name| < NAME_SIZE && NUL !in name && At(b, offset, NameField(name) + rest)
    ensures ReadName(b, offset) == Ok(name, offset + NAME_SIZE) && At(b, offset + NAME_SIZE, rest)
  {
    AtParts(b, offset, NameField(name), rest);
    NameFieldText(name);
  }
}
