/** A reduce order on its way through three processes: MaRTA prints it, Job reads its head and prints it again around
    the tail it does not look into, and Nodo reads that. */
module OrderCodec {
  import opened Bytes
  import opened Wire

  const COMMAND_REDUCE: Byte := 11

  /** A temporary file to be reduced: which node has it, where that node listens, and its name. */
  datatype Temp = Temp(nodeId: Text, nodeIp: Text, port: nat, name: Text)

  /** MaRTA's order. */
  datatype Reduce = Reduce(id: nat, nodeIp: Text, port: nat, resultName: Text, temps: seq<Temp>)

  /** What Job keeps of it. */
  datatype JobReduce = JobReduce(id: nat, nodeIp: Text, port: nat, resultName: Text, tail: Text)

  /** What Nodo gathers: its own single file, or parts to be fetched. */
  datatype Inputs = Own(name: Text) | Gather(parts: seq<Temp>)

  datatype NodoReduce = NodoReduce(routine: Text, resultName: Text, inputs: Inputs)

  /** The order as its bytes say it, whoever reads them. */
  datatype NodoOrder = NodoOrder(routine: Text, resultName: Text, temps: seq<Temp>)

  /** The files the reducer of a node reads, by node and name. */
  function FilesRead(inputs: Inputs, me: Text): seq<(Text, Text)> {
    match inputs
    case Own(name) => [(me, name)]
    case Gather(parts) => seq(|parts|, i requires 0 <= i < |parts| => (parts[i].nodeId, parts[i].name))
  }

  predicate GoodName(name: Text) {
    |name| < NAME_SIZE && NUL !in name
  }

  /** A C string whose length fits in 16 bits. */
  predicate GoodString(s: Text) {
    |s| < LIMIT16 && NUL !in s
  }

  predicate GoodTemp(t: Temp) {
    GoodString(t.nodeId) && GoodString(t.nodeIp) && t.port < LIMIT16 && GoodName(t.name)
  }

  predicate GoodTemps(temps: seq<Temp>) {
    |temps| < LIMIT16 && ShortNames(temps) && forall i :: 0 <= i < |temps| ==> GoodTemp(temps[i])
  }

  predicate GoodReduce(r: Reduce) {
    && r.id < LIMIT16 && GoodString(r.nodeIp) && r.port < LIMIT16 && GoodName(r.resultName)
    && GoodTemps(r.temps)
  }

  function TempBytes(t: Temp): Text
    requires |t.name| < NAME_SIZE
  {
    U16(|t.nodeId|) + (Cut16(t.nodeId) + (U16(|t.nodeIp|) + (Cut16(t.nodeIp) + (U16(t.port) + NameField(t.name)))))
  }

  predicate ShortNames(temps: seq<Temp>) {
    forall i :: 0 <= i < |temps| ==> |temps[i].name| < NAME_SIZE
  }

  function TempsBytes(temps: seq<Temp>): Text
    requires ShortNames(temps)
  {
    if temps == [] then [] else TempBytes(temps[0]) + TempsBytes(temps[1..])
  }

  /** The part of the order Job passes on unread. */
  function TailBytes(temps: seq<Temp>): Text
    requires ShortNames(temps)
  {
    U16(|temps|) + TempsBytes(temps)
  }

  function OrderBytes(r: Reduce): Text
    requires |r.resultName| < NAME_SIZE && ShortNames(r.temps)
  {
    [COMMAND_REDUCE] + (U16(r.id) + (U16(|r.nodeIp|) + (Cut16(r.nodeIp) + (U16(r.port)
      + (NameField(r.resultName) + TailBytes(r.temps))))))
  }

  /** Job counts the size of a number too many, over a zeroed buffer. */
  const PADDING: Text := [NUL, NUL, NUL, NUL]

  function NodoBytes(routine: Text, resultName: Text, tail: Text): Text {
    [COMMAND_REDUCE] + (U32(|routine|) + (routine + (U32(|resultName|) + (resultName + (tail + PADDING)))))
  }

  lemma {:induction false} TempsBytesAppend(a: seq<Temp>, t: Temp)
    requires ShortNames(a) && |t.name| < NAME_SIZE
    ensures TempsBytes(a + [t]) == TempsBytes(a) + TempBytes(t)
  {
    hide TempBytes;
    if a == [] {
      assert a + [t] == [t] && [t][1..] == [];
    } else {
      TempsBytesAppend(a[1..], t);
      assert (a + [t])[1..] == a[1..] + [t] && (a + [t])[0] == a[0];
      var x, y, z := TempBytes(a[0]), TempsBytes(a[1..]), TempBytes(t);
      assert x + (y + z) == x + y + z;
    }
  }

  lemma TempSize(t: Temp)
    requires |t.name| < NAME_SIZE
    ensures |TempBytes(t)| == 2 + |Cut16(t.nodeId)| + 2 + |Cut16(t.nodeIp)| + 2 + NAME_SIZE
    ensures |Cut16(t.nodeId)| == |t.nodeId| % LIMIT16 && |Cut16(t.nodeIp)| == |t.nodeIp| % LIMIT16
  {
  }

  /** The size of the printed list, computed before it is printed. */
  method TotalTempsSize(temps: seq<Temp>) returns (size: nat)
    requires ShortNames(temps)
    ensures size == |TempsBytes(temps)|
  {
    hide TempsBytes, TempBytes;
    NoTemps();
    size := 0;
    var i := 0;
    while i < |temps|
      invariant 0 <= i <= |temps| && size == |TempsBytes(temps[..i])|
    {
      TempsBytesAppend(temps[..i], temps[i]);
      TempSize(temps[i]);
      assert temps[..i + 1] == temps[..i] + [temps[i]];
      size := size + 2 + |temps[i].nodeId| % LIMIT16 + 2 + |temps[i].nodeIp| % LIMIT16 + 2 + NAME_SIZE;
      i := i + 1;
    }
    assert temps[..i] == temps;
  }

  method SerializeTemp(t: Temp, buffer: array<Byte>, offset: nat) returns (next: nat)
    requires |t.name| < NAME_SIZE && offset + |TempBytes(t)| <= buffer.Length
    modifies buffer
    ensures next == offset + |TempBytes(t)|
    ensures buffer[..next] == old(buffer[..offset]) + TempBytes(t)
  {
    TempSize(t);
    hide U16, Cut16, NameField;
    ghost var o := buffer[..offset];
    next := Put(buffer, offset, U16(|t.nodeId|));
    next := Put(buffer, next, Cut16(t.nodeId));
    next := Put(buffer, next, U16(|t.nodeIp|));
    next := Put(buffer, next, Cut16(t.nodeIp));
    next := Put(buffer, next, U16(t.port));
    next := Put(buffer, next, NameField(t.name));
    Assoc6(o, U16(|t.nodeId|), Cut16(t.nodeId), U16(|t.nodeIp|), Cut16(t.nodeIp), U16(t.port), NameField(t.name));
  }

  method SerializeTemps(temps: seq<Temp>) returns (tempsBuffer: array<Byte>)
    requires ShortNames(temps)
    ensures fresh(tempsBuffer) && tempsBuffer[..] == TempsBytes(temps)
  {
    hide TempsBytes, TempBytes;
    NoTemps();
    var size := TotalTempsSize(temps);
    tempsBuffer := new Byte[size];
    var auxSize, i := 0, 0;
    while i < |temps|
      invariant 0 <= i <= |temps|
      invariant auxSize == |TempsBytes(temps[..i])| <= tempsBuffer.Length
      invariant tempsBuffer[..auxSize] == TempsBytes(temps[..i])
    {
      TempsPrefixFits(temps, i);
      auxSize := SerializeTemp(temps[i], tempsBuffer, auxSize);
      i := i + 1;
    }
    assert temps[..i] == temps;
  }

  method SerializeReduceToOrder(r: Reduce) returns (buffer: array<Byte>)
    requires |r.resultName| < NAME_SIZE && ShortNames(r.temps)
    ensures fresh(buffer) && buffer[..] == OrderBytes(r)
  {
    hide TempsBytes, NameField, Cut16, U16;
    var tempsBuffer := SerializeTemps(r.temps);
    buffer := new Byte[1 + 2 + 2 + |Cut16(r.nodeIp)| + 2 + NAME_SIZE + 2 + tempsBuffer.Length];
    ghost var o := buffer[..0];
    var next := Put(buffer, 0, [COMMAND_REDUCE]);
    next := Put(buffer, next, U16(r.id));
    next := Put(buffer, next, U16(|r.nodeIp|));
    next := Put(buffer, next, Cut16(r.nodeIp));
    next := Put(buffer, next, U16(r.port));
    next := Put(buffer, next, NameField(r.resultName));
    ghost var head := buffer[..next];
    next := Put(buffer, next, U16(|r.temps|));
    next := Put(buffer, next, tempsBuffer[..]);
    var tail := TailBytes(r.temps);
    Assoc(head, U16(|r.temps|), tempsBuffer[..]);
    OrderAssoc(U16(r.id), U16(|r.nodeIp|), Cut16(r.nodeIp), U16(r.port), NameField(r.resultName), tail);
    assert buffer[..] == buffer[..next];
  }

  lemma OrderAssoc(a: Text, b: Text, c: Text, d: Text, e: Text, f: Text)
    ensures [] + [COMMAND_REDUCE] + a + b + c + d + e + f == [COMMAND_REDUCE] + (a + (b + (c + (d + (e + f)))))
  {
    Assoc6([COMMAND_REDUCE], a, b, c, d, e, f);
  }

  lemma NoTemps()
    ensures TempsBytes([]) == []
  {
  }

  lemma TempsPrefixFits(temps: seq<Temp>, k: nat)
    requires ShortNames(temps) && k < |temps|
    ensures TempsBytes(temps[..k + 1]) == TempsBytes(temps[..k]) + TempBytes(temps[k])
    ensures |TempsBytes(temps[..k + 1])| <= |TempsBytes(temps)|
  {
    assert temps[..k + 1] == temps[..k] + [temps[k]];
    TempsBytesAppend(temps[..k], temps[k]);
    PrefixShorter(temps, k + 1);
  }

  lemma {:induction false} PrefixShorter(temps: seq<Temp>, k: nat)
    requires ShortNames(temps) && k <= |temps|
    ensures |TempsBytes(temps[..k])| <= |TempsBytes(temps)|
  {
    hide TempBytes;
    if k > 0 {
      PrefixShorter(temps[1..], k - 1);
      assert temps[..k][1..] == temps[1..][..k - 1];
    }
  }

  /** Job reads the head of the order, after its command byte, and keeps the rest as it is. */
  function ParseJob(b: Text): Parsed<JobReduce> {
    match Read16(b, 0) case Overrun => Overrun case Ok(id, o1) =>
    match ReadString16(b, o1) case Overrun => Overrun case Ok(ip, o2) =>
    match Read16(b, o2) case Overrun => Overrun case Ok(port, o3) =>
    match ReadName(b, o3) case Overrun => Overrun case Ok(name, o4) =>
    Ok(JobReduce(id, ip, port, name, b[o4..]), |b|)
  }

  /** Job prints the order for the node that runs it: the reducer program, the result name, the unread rest, and four
      bytes that nothing is put into. */
  method SerializeReduce(j: JobReduce, routine: Text) returns (buffer: array<Byte>)
    ensures fresh(buffer) && buffer[..] == NodoBytes(routine, j.resultName, j.tail)
  {
    hide U32;
    var size := 1 + 4 + |routine| + 4 + |j.resultName| + 4 + |j.tail|;
    buffer := new Byte[size](_ => NUL);
    ghost var o := buffer[..0];
    var next := Put(buffer, 0, [COMMAND_REDUCE]);
    next := Put(buffer, next, U32(|routine|));
    next := Put(buffer, next, routine);
    next := Put(buffer, next, U32(|j.resultName|));
    next := Put(buffer, next, j.resultName);
    next := Put(buffer, next, j.tail);
    NodoAssoc(U32(|routine|), routine, U32(|j.resultName|), j.resultName, j.tail);
    PaddedBehind(buffer[..], next);
    assert buffer[..][..next] == buffer[..next];
  }

  lemma PaddedBehind(s: Text, n: nat)
    requires |s| == n + |PADDING| && forall k :: n <= k < |s| ==> s[k] == NUL
    ensures s == s[..n] + PADDING
  {
  }

  lemma NodoAssoc(a: Text, b: Text, c: Text, d: Text, e: Text)
    ensures [] + [COMMAND_REDUCE] + a + b + c + d + e + PADDING ==
      [COMMAND_REDUCE] + (a + (b + (c + (d + (e + PADDING)))))
  {
    Assoc6([COMMAND_REDUCE], a, b, c, d, e, PADDING);
  }

  function ParseTemp(b: Text, offset: nat): Parsed<Temp> {
    match ReadString16(b, offset) case Overrun => Overrun case Ok(nodeId, o1) =>
    match ReadString16(b, o1) case Overrun => Overrun case Ok(nodeIp, o2) =>
    match Read16(b, o2) case Overrun => Overrun case Ok(port, o3) =>
    match ReadName(b, o3) case Overrun => Overrun case Ok(name, o4) =>
    Ok(Temp(nodeId, nodeIp, port, name), o4)
  }

  function ParseTemps(b: Text, offset: nat, count: nat, read: seq<Temp>): Parsed<seq<Temp>>
    decreases count
  {
    if count == 0 then Ok(read, offset)
    else match ParseTemp(b, offset)
      case Overrun => Overrun
      case Ok(t, next) => ParseTemps(b, next, count - 1, read + [t])
  }

  function ParseNodo(b: Text): Parsed<NodoOrder> {
    match ReadString32(b, 1) case Overrun => Overrun case Ok(routine, o1) =>
    match ReadString32(b, o1) case Overrun => Overrun case Ok(name, o2) =>
    match Read16(b, o2) case Overrun => Overrun case Ok(count, o3) =>
    match ParseTemps(b, o3, count, []) case Overrun => Overrun case Ok(temps, o4) =>
    Ok(NodoOrder(routine, name, temps), o4)
  }

  /** Nodo's reader; me is the node's own name. A single file the node has itself is used where it is, anything else is
      gathered: either way the files read are those of the order. */
  method DeserializeReduce(b: Text, me: Text) returns (r: Parsed<NodoReduce>)
    ensures r.Overrun? <==> ParseNodo(b).Overrun?
    ensures r.Ok? ==> var order := ParseNodo(b);
      r.next == order.next && r.value.routine == order.value.routine && r.value.resultName == order.value.resultName
    ensures r.Ok? ==> |FilesRead(r.value.inputs, me)| == |ParseNodo(b).value.temps|
    ensures r.Ok? ==> var temps := ParseNodo(b).value.temps;
      forall i :: 0 <= i < |temps| ==> FilesRead(r.value.inputs, me)[i] == (temps[i].nodeId, temps[i].name)
    ensures r.Ok? ==> var temps := ParseNodo(b).value.temps;
      (r.value.inputs.Own? <==> |temps| == 1 && temps[0].nodeId == me)
    ensures r.Ok? && r.value.inputs.Gather? ==> r.value.inputs.parts == ParseNodo(b).value.temps
  {
    hide ReadString16, ReadString32, Read16, ReadName, ParseTemp;
    var routine := ReadString32(b, 1);
    if routine.Overrun? {
      return Overrun;
    }
    var finalName := ReadString32(b, routine.next);
    if finalName.Overrun? {
      return Overrun;
    }
    var countTemps := Read16(b, finalName.next);
    if countTemps.Overrun? {
      return Overrun;
    }
    var count, offset := countTemps.value, countTemps.next;
    var own, parts := false, [];
    var ownName: Text := [];
    ghost var all: seq<Temp> := [];
    var i := 0;
    while i < count
      invariant 0 <= i <= count && |all| == i
      invariant ParseTemps(b, offset, count - i, all) == ParseTemps(b, countTemps.next, count, [])
      invariant !own ==> parts == all && (count == 1 && i == 1 ==> all[0].nodeId != me)
      invariant own ==> count == 1 && i == 1 && all[0].nodeId == me && ownName == all[0].name
    {
      var t := ParseTemp(b, offset);
      if t.Overrun? {
        return Overrun;
      }
      if count == 1 && me == t.value.nodeId {
        own, ownName := true, t.value.name;
      } else {
        parts := parts + [t.value];
      }
      all := all + [t.value];
      offset := t.next;
      i := i + 1;
    }
    r := Ok(NodoReduce(routine.value, finalName.value, if own then Own(ownName) else Gather(parts)), offset);
  }

  lemma ReadBackTemp(b: Text, offset: nat, t: Temp, rest: Text)
    requires GoodTemp(t) && At(b, offset, TempBytes(t) + rest)
    ensures ParseTemp(b, offset) == Ok(t, offset + |TempBytes(t)|) && At(b, offset + |TempBytes(t)|, rest)
  {
    hide ReadString16, Read16, ReadName, U16, NameField, Cut16, At, TempBytes;
    AtParts(b, offset, TempBytes(t), rest);
    TempShape(t);
    var f3 := U16(t.port) + NameField(t.name);
    var f2 := U16(|t.nodeIp|) + (Cut16(t.nodeIp) + f3);
    ReadBackString16(b, offset, t.nodeId, f2);
    ReadBackString16(b, offset + 2 + |t.nodeId|, t.nodeIp, f3);
    var o := offset + 2 + |t.nodeId| + 2 + |t.nodeIp|;
    ReadBack16(b, o, t.port, NameField(t.name));
    assert NameField(t.name) + [] == NameField(t.name);
    ReadBackName(b, o + 2, t.name, []);
  }

  lemma TempShape(t: Temp)
    requires GoodTemp(t)
    ensures TempBytes(t) == U16(|t.nodeId|) + (Cut16(t.nodeId)
      + (U16(|t.nodeIp|) + (Cut16(t.nodeIp) + (U16(t.port) + NameField(t.name)))))
    ensures |TempBytes(t)| == 2 + |t.nodeId| + 2 + |t.nodeIp| + 2 + NAME_SIZE
  {
    TempSize(t);
  }

  lemma {:induction false} ReadBackTemps(b: Text, offset: nat, temps: seq<Temp>, read: seq<Temp>)
    requires GoodTemps(temps)
    requires At(b, offset, TempsBytes(temps))
    ensures ParseTemps(b, offset, |temps|, read) == Ok(read + temps, offset + |TempsBytes(temps)|)
    decreases |temps|
  {
    hide ParseTemp, TempBytes, GoodTemp, At;
    if temps == [] {
      assert read + temps == read;
    } else {
      GoodTempsParts(temps);
      ReadBackTemp(b, offset, temps[0], TempsBytes(temps[1..]));
      ReadBackTemps(b, offset + |TempBytes(temps[0])|, temps[1..], read + [temps[0]]);
      assert read + [temps[0]] + temps[1..] == read + temps;
    }
  }

  lemma GoodTempsParts(temps: seq<Temp>)
    requires GoodTemps(temps) && temps != []
    ensures GoodTemp(temps[0]) && GoodTemps(temps[1..]) && |temps[0].name| < NAME_SIZE
  {
  }

  lemma JobReadsHead(r: Reduce)
    requires GoodReduce(r)
    ensures ParseJob(OrderBytes(r)[1..]) ==
      Ok(JobReduce(r.id, r.nodeIp, r.port, r.resultName, TailBytes(r.temps)), |OrderBytes(r)| - 1)
  {
    hide ReadString16, Read16, ReadName, U16, NameField, Cut16, TailBytes, OrderBytes, At;
    OrderShape(r);
    var b := OrderBytes(r)[1..];
    var tail := TailBytes(r.temps);
    var f3 := NameField(r.resultName) + tail;
    var f2 := U16(r.port) + f3;
    var f1 := U16(|r.nodeIp|) + (Cut16(r.nodeIp) + f2);
    ReadBack16(b, 0, r.id, f1);
    ReadBackString16(b, 2, r.nodeIp, f2);
    var o := 2 + 2 + |r.nodeIp|;
    ReadBack16(b, o, r.port, f3);
    ReadBackName(b, o + 2, r.resultName, tail);
    AtEnd(b, o + 2 + NAME_SIZE, tail);
  }

  lemma AtEnd(b: Text, offset: nat, x: Text)
    requires At(b, offset, x) && |b| == offset + |x|
    ensures b[offset..] == x
  {
  }

  lemma OrderShape(r: Reduce)
    requires GoodReduce(r)
    ensures |OrderBytes(r)| == 1 + 2 + 2 + |r.nodeIp| + 2 + NAME_SIZE + |TailBytes(r.temps)|
    ensures At(OrderBytes(r)[1..], 0, U16(r.id) + (U16(|r.nodeIp|) + (Cut16(r.nodeIp) + (U16(r.port)
      + (NameField(r.resultName) + TailBytes(r.temps))))))
  {
    hide TailBytes, U16, NameField;
    var rest := U16(r.id) + (U16(|r.nodeIp|) + (Cut16(r.nodeIp) + (U16(r.port)
      + (NameField(r.resultName) + TailBytes(r.temps)))));
    assert OrderBytes(r)[1..] == rest;
  }

  lemma NodoReadsAll(routine: Text, resultName: Text, temps: seq<Temp>)
    requires |routine| < LIMIT32 && NUL !in routine && GoodName(resultName)
    requires GoodTemps(temps)
    ensures ParseNodo(NodoBytes(routine, resultName, TailBytes(temps))) ==
      Ok(NodoOrder(routine, resultName, temps), |NodoBytes(routine, resultName, TailBytes(temps))| - |PADDING|)
  {
    hide ReadString32, Read16, U32, U16, TempsBytes, ParseTemps, GoodTemp, At, NodoBytes;
    var tail := TailBytes(temps);
    var b := NodoBytes(routine, resultName, tail);
    var f3 := tail + PADDING;
    var f2 := U32(|resultName|) + (resultName + f3);
    NodoShape(routine, resultName, tail);
    ReadBackString32(b, 1, routine, f2);
    var o := 1 + 4 + |routine|;
    ReadBackString32(b, o, resultName, f3);
    Assoc(U16(|temps|), TempsBytes(temps), PADDING);
    ReadBack16(b, o + 4 + |resultName|, |temps|, TempsBytes(temps) + PADDING);
    AtParts(b, o + 4 + |resultName| + 2, TempsBytes(temps), PADDING);
    ReadBackTemps(b, o + 4 + |resultName| + 2, temps, []);
    assert [] + temps == temps;
  }

  lemma NodoShape(routine: Text, resultName: Text, tail: Text)
    ensures |NodoBytes(routine, resultName, tail)| == 1 + 4 + |routine| + 4 + |resultName| + |tail| + |PADDING|
    ensures At(NodoBytes(routine, resultName, tail), 1,
      U32(|routine|) + (routine + (U32(|resultName|) + (resultName + (tail + PADDING)))))
  {
    hide U32;
    var rest := U32(|routine|) + (routine + (U32(|resultName|) + (resultName + (tail + PADDING))));
    assert NodoBytes(routine, resultName, tail)[1..] == rest;
  }

  /** What Nodo reads out of Job's print of what Job read out of MaRTA's print is the original order. */
  lemma OrderSurvives(r: Reduce, routine: Text)
    requires GoodReduce(r) && |routine| < LIMIT32 && NUL !in routine
    ensures ParseJob(OrderBytes(r)[1..]).Ok?
    ensures
      var j := ParseJob(OrderBytes(r)[1..]).value;
      var n := ParseNodo(NodoBytes(routine, j.resultName, j.tail));
      && j.id == r.id && j.nodeIp == r.nodeIp && j.port == r.port
      && n.Ok? && n.value == NodoOrder(routine, r.resultName, r.temps)
  {
    JobReadsHead(r);
    NodoReadsAll(routine, r.resultName, r.temps);
  }

  /** The order through the three processes: the node that runs it reads exactly the files of the order, in order, and
      fetches a part that another node has from the address MaRTA gave for it. */
  method RelayReduce(r: Reduce, routine: Text, me: Text) returns (n: NodoReduce)
    requires GoodReduce(r) && |routine| < LIMIT32 && NUL !in routine
    ensures n.routine == routine && n.resultName == r.resultName
    ensures |FilesRead(n.inputs, me)| == |r.temps|
    ensures forall i :: 0 <= i < |r.temps| ==> FilesRead(n.inputs, me)[i] == (r.temps[i].nodeId, r.temps[i].name)
    ensures forall i :: 0 <= i < |r.temps| && r.temps[i].nodeId != me ==>
      n.inputs.Gather? && i < |n.inputs.parts| && n.inputs.parts[i].nodeIp == r.temps[i].nodeIp &&
      n.inputs.parts[i].port == r.temps[i].port
    ensures n.inputs.Own? <==> |r.temps| == 1 && r.temps[0].nodeId == me
  {
    hide NodoBytes, ParseJob, ParseNodo, FilesRead;
    OrderSurvives(r, routine);
    var order := SerializeReduceToOrder(r);
    var head := ParseJob(order[..][1..]);
    var packet := SerializeReduce(head.value, routine);
    var read := DeserializeReduce(packet[..], me);
    n := read.value;
  }
}
