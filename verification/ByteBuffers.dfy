/** A growable first-in first-out buffer of bytes, with typed access in network or host order and
    read positions that can be remembered and restored.
 */
module ByteBuffers {
  import opened ByteOrder
  import opened Division
  import opened Options
  import opened Sequences

  datatype Order = Network | Host

  datatype ReadPosition = ReadPosition(start: nat, version: nat)

  // ---------------------------------------------------------------- the buffer as a value

  /** `log` is everything written since the last resize or clear, whether read already or not;
      `start` says how much of it has been read, `size` is the allocated size. */
  datatype Buffer = Buffer(log: seq<Byte>, start: nat, size: nat, version: nat) {

    predicate Valid() { start <= |log| <= size }

    function Contents(): seq<Byte>
      requires Valid()
    {
      log[start..]
    }

    function Capacity(): nat
      requires Valid()
    {
      size - start
    }

    function Position(): ReadPosition { ReadPosition(start, version) }

    predicate MustGrow(len: nat)
      requires Valid()
    {
      |Contents()| + len > Capacity()
    }

    function Resized(newSize: nat): (b: Buffer)
      requires Valid()
      ensures b.Valid()
    {
      var len := if |Contents()| <= newSize then |Contents()| else newSize;
      var room := if newSize <= size then size else if newSize > 3 * size / 2 then newSize else 3 * size / 2;
      Buffer(Contents()[..len], 0, room, version + 1)
    }

    function Written(data: seq<Byte>): (b: Buffer)
      requires Valid()
      ensures b.Valid()
    {
      var b := if MustGrow(|data|) then Resized(|Contents()| + |data|) else this;
      b.(log := b.log + data)
    }

    function Taken(len: nat): (b: Buffer)
      requires Valid()
      ensures b.Valid()
    {
      if len > |Contents()| then this else this.(start := start + len)
    }

    function Cleared(): (b: Buffer) { Buffer([], 0, size, version + 1) }

    predicate Accepts(position: ReadPosition) { position.version == version }

    function Restored(position: ReadPosition): Buffer {
      if Accepts(position) then this.(start := position.start) else this
    }
  }

  /** A write invalidates the saved positions exactly when it does not fit behind what was written
      before, whether that has been read or not. */
  lemma MovesExactly(b: Buffer, data: seq<Byte>)
    requires b.Valid()
    ensures b.Written(data).version == b.version <==> |b.log| + |data| <= b.size
    ensures b.Written(data).version == if |b.log| + |data| <= b.size then b.version else b.version + 1
  {
  }

  /** A write moves the readable bytes to the front when they then leave room for the new ones, and
      allocates only when they do not, at least half as much again as there was. */
  lemma RoomAfterWrite(b: Buffer, data: seq<Byte>)
    requires b.Valid()
    ensures var needed, room := |b.Contents()| + |data|, b.Written(data).size;
      && (room == b.size <==> needed <= b.size)
      && (needed > b.size ==> room >= needed && room >= 3 * b.size / 2 && (room == needed || room == 3 * b.size / 2))
  {
  }

  /** A cleared buffer has all of its room again. */
  lemma ClearedRoom(b: Buffer, data: seq<Byte>)
    requires b.Valid()
    ensures b.Cleared().Valid() && b.Cleared().Contents() == []
    ensures b.Cleared().Written(data).version == b.version + 1 <==> |data| <= b.size
  {
  }

  lemma SameRoom(b: Buffer, placeholder: seq<Byte>, data: seq<Byte>)
    requires b.Valid() && |placeholder| == |data|
    ensures var log := b.Written(placeholder).log;
      && |log| >= |data|
      && b.Written(data) == b.Written(placeholder).(log := log[..|log| - |data|] + data)
  {
  }

  // ---------------------------------------------------------------- runs

  /** `Take` is a read of raw bytes or a consume. `Save` remembers the read position and `Restore`
      goes back to the one saved `index`-th. */
  datatype Op =
    | Write(data: seq<Byte>)
    | Take(len: nat)
    | Resize(size: nat)
    | Clear
    | Save
    | Restore(index: nat)

  datatype Session = Session(buffer: Buffer, saved: seq<ReadPosition>) {

    /** Positions come from `Save` only, so those of the current version lie inside the log. */
    ghost predicate Valid() {
      && buffer.Valid()
      && forall p :: p in saved ==>
           p.version <= buffer.version && (buffer.Accepts(p) ==> p.start <= |buffer.log|)
    }
  }

  function Apply(s: Session, op: Op): Session
    requires s.buffer.Valid()
  {
    match op
    case Write(data) => s.(buffer := s.buffer.Written(data))
    case Take(len) => s.(buffer := s.buffer.Taken(len))
    case Resize(size) => s.(buffer := s.buffer.Resized(size))
    case Clear => s.(buffer := s.buffer.Cleared())
    case Save => s.(saved := s.saved + [s.buffer.Position()])
    case Restore(i) => if i < |s.saved| then s.(buffer := s.buffer.Restored(s.saved[i])) else s
  }

  lemma ApplyKeepsValid(s: Session, op: Op)
    requires s.Valid()
    ensures Apply(s, op).Valid()
  {
    var t := Apply(s, op);
    forall p | p in t.saved
      ensures p.version <= t.buffer.version && (t.buffer.Accepts(p) ==> p.start <= |t.buffer.log|)
    {
      assert p in s.saved || p == s.buffer.Position();
    }
    if op.Restore? && op.index < |s.saved| {
      assert s.saved[op.index] in s.saved;
    }
  }

  function Run(s: Session, ops: seq<Op>): (t: Session)
    requires s.Valid()
    ensures t.Valid()
    decreases |ops|
  {
    ApplyKeepsValidIfAny(s, ops);
    if ops == [] then s else Run(Apply(s, ops[0]), ops[1..])
  }

  lemma ApplyKeepsValidIfAny(s: Session, ops: seq<Op>)
    requires s.Valid()
    ensures ops != [] ==> Apply(s, ops[0]).Valid()
  {
    if ops != [] {
      ApplyKeepsValid(s, ops[0]);
    }
  }

  /** Whether an operation resizes or clears the buffer; a write does when there is no room. */
  predicate ResetsBuffer(s: Session, op: Op)
    requires s.buffer.Valid()
  {
    op.Resize? || op.Clear? || (op.Write? && s.buffer.MustGrow(|op.data|))
  }

  ghost predicate ResetsInRun(s: Session, ops: seq<Op>)
    requires s.Valid()
    decreases |ops|
  {
    ApplyKeepsValidIfAny(s, ops);
    ops != [] && (ResetsBuffer(s, ops[0]) || ResetsInRun(Apply(s, ops[0]), ops[1..]))
  }

  function AllWritten(ops: seq<Op>): seq<Byte> {
    if ops == [] then [] else (if ops[0].Write? then ops[0].data else []) + AllWritten(ops[1..])
  }

  lemma {:induction false} LogInRun(s: Session, ops: seq<Op>)
    requires s.Valid()
    ensures s.buffer.version <= Run(s, ops).buffer.version
    ensures ResetsInRun(s, ops) <==> s.buffer.version < Run(s, ops).buffer.version
    ensures !ResetsInRun(s, ops) ==> Run(s, ops).buffer.log == s.buffer.log + AllWritten(ops)
    decreases |ops|
  {
    if ops != [] {
      ApplyKeepsValid(s, ops[0]);
      var t := Apply(s, ops[0]);
      LogInRun(t, ops[1..]);
      var first := if ops[0].Write? then ops[0].data else [];
      if !ResetsBuffer(s, ops[0]) {
        assert t.buffer.log == s.buffer.log + first;
        assert s.buffer.log + first + AllWritten(ops[1..]) == s.buffer.log + (first + AllWritten(ops[1..]));
      }
    }
  }

  /** A position saved before any run of operations is accepted afterwards exactly when none of
      them resized or cleared the buffer, and then going back to it makes readable what was
      readable when it was saved, followed by everything written since. */
  lemma SavedPosition(s: Session, ops: seq<Op>)
    requires s.Valid()
    ensures var position, after := s.buffer.Position(), Run(s, ops).buffer;
      && (after.Accepts(position) <==> !ResetsInRun(s, ops))
      && (after.Accepts(position) ==>
            && after.Restored(position).Valid()
            && after.Restored(position).Contents() == s.buffer.Contents() + AllWritten(ops))
  {
    LogInRun(s, ops);
  }

  /** Writes and reads only, and going back. */
  ghost predicate InPlace(ops: seq<Op>) { forall op :: op in ops ==> !op.Resize? && !op.Clear? }

  lemma {:induction false} ResetsExactly(s: Session, ops: seq<Op>)
    requires s.Valid() && InPlace(ops)
    ensures ResetsInRun(s, ops) <==> |s.buffer.log| + |AllWritten(ops)| > s.buffer.size
    decreases |ops|
  {
    if ops != [] {
      ApplyKeepsValid(s, ops[0]);
      assert ops[0] in ops;
      ResetsExactly(Apply(s, ops[0]), ops[1..]);
    }
  }

  /** A position saved at any time survives any run of writes, reads and returns to saved positions
      exactly when everything written since fits behind what had been written before. */
  lemma SurvivesExactly(s: Session, ops: seq<Op>)
    requires s.Valid() && InPlace(ops)
    ensures Run(s, ops).buffer.Accepts(s.buffer.Position()) <==> |s.buffer.log| + |AllWritten(ops)| <= s.buffer.size
  {
    SavedPosition(s, ops);
    ResetsExactly(s, ops);
  }

  function NewSession(): Session { Session(Buffer([], 0, DEFAULT_SIZE, 0), []) }

  /** In a new buffer a position is kept as long as no more than 4096 bytes are written in all, and
      going back to it makes the same bytes readable and those written since. */
  lemma SavedInNewBuffer(before: seq<Op>, after: seq<Op>)
    requires InPlace(before) && InPlace(after)
    requires |AllWritten(before)| + |AllWritten(after)| <= 4096
    ensures
      var s := Run(NewSession(), before);
      var end, position := Run(s, after).buffer, s.buffer.Position();
      && end.Accepts(position) && end.size == 4096
      && end.Restored(position).Valid()
      && end.Restored(position).Contents() == s.buffer.Contents() + AllWritten(after)
  {
    var empty, s := NewSession(), Run(NewSession(), before);
    ResetsExactly(empty, before);
    LogInRun(empty, before);
    SizeInRun(empty, before);
    assert |s.buffer.log| == |AllWritten(before)|;
    SurvivesExactly(s, after);
    SavedPosition(s, after);
    SizeInRun(s, after);
  }

  lemma {:induction false} SizeInRun(s: Session, ops: seq<Op>)
    requires s.Valid() && !ResetsInRun(s, ops)
    ensures Run(s, ops).buffer.size == s.buffer.size
    decreases |ops|
  {
    if ops != [] {
      ApplyKeepsValid(s, ops[0]);
      SizeInRun(Apply(s, ops[0]), ops[1..]);
    }
  }

  /** When nothing is read, each of the moves of a run of writes adds at least half of the first size. */
  lemma {:induction false} GrowthInRun(s: Session, ops: seq<Op>)
    requires s.Valid() && s.buffer.start == 0 && forall op :: op in ops ==> op.Write?
    ensures var end := Run(s, ops).buffer;
      end.size >= s.buffer.size + (end.version - s.buffer.version) * (s.buffer.size / 2)
    decreases |ops|
  {
    if ops != [] {
      ApplyKeepsValid(s, ops[0]);
      assert ops[0] in ops;
      var t := Apply(s, ops[0]);
      GrowthOfWrite(s.buffer, ops[0].data);
      LogInRun(t, ops[1..]);
      GrowthInRun(t, ops[1..]);
      GrowthAdds(s.buffer.size, t.buffer.size, Run(t, ops[1..]).buffer.size,
        t.buffer.version - s.buffer.version, Run(t, ops[1..]).buffer.version - t.buffer.version);
    }
  }

  lemma GrowthOfWrite(b: Buffer, data: seq<Byte>)
    requires b.Valid() && b.start == 0
    ensures var d := b.Written(data);
      && d.start == 0 && b.version <= d.version <= b.version + 1
      && d.size >= b.size + (if d.version == b.version + 1 then b.size / 2 else 0)
  {
    RoomAfterWrite(b, data);
    MovesExactly(b, data);
  }

  lemma GrowthAdds(first: nat, second: nat, third: nat, step: nat, moves: nat)
    requires step <= 1 && second >= first + (if step == 1 then first / 2 else 0)
    requires third >= second + moves * (second / 2)
    ensures third >= first + (step + moves) * (first / 2)
  {
    Multiples(moves, first / 2, second / 2);
  }

  lemma Multiples(n: nat, a: nat, b: nat)
    requires a <= b
    ensures n * a <= n * b && (0 + n) * a == n * a && (1 + n) * a == a + n * a
  {
  }

  // ---------------------------------------------------------------- a queue of bytes

  /** What an operation does to a plain queue of bytes. */
  function OnQueue(queue: seq<Byte>, op: Op): seq<Byte> {
    match op
    case Write(data) => queue + data
    case Take(len) => if len <= |queue| then queue[len..] else queue
    case Resize(size) => if size <= |queue| then queue[..size] else queue
    case Clear => []
    case Save => queue
    case Restore(_) => queue
  }

  function QueueRun(queue: seq<Byte>, ops: seq<Op>): seq<Byte>
    decreases |ops|
  {
    if ops == [] then queue else QueueRun(OnQueue(queue, ops[0]), ops[1..])
  }

  lemma OpRefinesQueue(s: Session, op: Op)
    requires s.Valid() && !op.Restore?
    ensures Apply(s, op).buffer.Contents() == OnQueue(s.buffer.Contents(), op)
  {
  }

  /** Growing, compacting and consuming are invisible: short of going back to a saved position,
      the readable bytes are those of a plain queue. */
  lemma {:induction false} RefinesQueue(s: Session, ops: seq<Op>)
    requires s.Valid() && forall op :: op in ops ==> !op.Restore?
    ensures Run(s, ops).buffer.Contents() == QueueRun(s.buffer.Contents(), ops)
    decreases |ops|
  {
    if ops != [] {
      ApplyKeepsValid(s, ops[0]);
      var t := Apply(s, ops[0]);
      assert ops[0] in ops;
      OpRefinesQueue(s, ops[0]);
      RefinesQueue(t, ops[1..]);
    }
  }

  function TakenBy(s: Session, op: Op): seq<Byte>
    requires s.buffer.Valid()
  {
    if op.Take? && op.len <= |s.buffer.Contents()| then s.buffer.Contents()[..op.len] else []
  }

  function AllTaken(s: Session, ops: seq<Op>): seq<Byte>
    requires s.Valid()
    decreases |ops|
  {
    ApplyKeepsValidIfAny(s, ops);
    if ops == [] then []
    else
      TakenBy(s, ops[0]) + AllTaken(Apply(s, ops[0]), ops[1..])
  }

  /** Conservation: what the reads took, followed by what is still readable, is what was readable
      at first followed by what was written. */
  lemma {:induction false} NothingLost(s: Session, ops: seq<Op>)
    requires s.Valid() && forall op :: op in ops ==> op.Write? || op.Take? || op.Save?
    ensures AllTaken(s, ops) + Run(s, ops).buffer.Contents() == s.buffer.Contents() + AllWritten(ops)
    decreases |ops|
  {
    if ops != [] {
      ApplyKeepsValid(s, ops[0]);
      var t := Apply(s, ops[0]);
      assert ops[0] in ops;
      NothingLost(t, ops[1..]);
      NothingLostByOp(s, ops[0]);
      var before, between := s.buffer.Contents(), t.buffer.Contents();
      var first, added := TakenBy(s, ops[0]), if ops[0].Write? then ops[0].data else [];
      Exchange(first, AllTaken(t, ops[1..]), Run(t, ops[1..]).buffer.Contents(),
               between, before, added, AllWritten(ops[1..]));
    }
  }

  lemma NothingLostByOp(s: Session, op: Op)
    requires s.Valid() && (op.Write? || op.Take? || op.Save?)
    ensures TakenBy(s, op) + Apply(s, op).buffer.Contents()
            == s.buffer.Contents() + if op.Write? then op.data else []
  {
  }

  lemma Exchange<T>(first: seq<T>, taken: seq<T>, end: seq<T>, between: seq<T>, before: seq<T>, added: seq<T>,
        written: seq<T>)
    requires taken + end == between + written && first + between == before + added
    ensures (first + taken) + end == before + (added + written)
  {
    assert (first + taken) + end == first + (taken + end);
    assert first + (between + written) == (first + between) + written;
    assert (before + added) + written == before + (added + written);
  }

  // ---------------------------------------------------------------- typed values

  datatype Value =
    | UInt8(v: nat)
    | UInt16(v: nat)
    | UInt24(v: nat)
    | UInt32(v: nat)
    | UInt64(v: nat)
    | Text(bytes: seq<Byte>)
  {
    function Width(): nat {
      match this
      case UInt8(_) => 1
      case UInt16(_) => 2
      case UInt24(_) => 3
      case UInt32(_) => 4
      case UInt64(_) => 8
      case Text(s) => |s|
    }

    /** The argument fits its C++ type: a 24-bit value is passed as a `uint32`. */
    predicate WellTyped() {
      match this
      case UInt24(v) => v < Range(4)
      case Text(_) => true
      case _ => v < Range(Width())
    }

    /** What survives in the buffer: only the low 24 bits of a 24-bit value. */
    function Stored(): Value {
      if UInt24? then UInt24(v % Range(3)) else this
    }
  }

  function Offset24(order: Order, bigEndianHost: bool): nat {
    if order == Network || bigEndianHost then 1 else 0
  }

  function EncodeUInt(v: nat, width: nat, order: Order, bigEndianHost: bool): seq<Byte> {
    HostImage(if order == Network then HostToNetwork(v, width, bigEndianHost) else v, width, bigEndianHost)
  }

  function DecodeUInt(s: seq<Byte>, order: Order, bigEndianHost: bool): nat {
    var v := FromHostImage(s, bigEndianHost);
    if order == Network then NetworkToHost(v, |s|, bigEndianHost) else v
  }

  function EncodeUInt24(v: nat, order: Order, bigEndianHost: bool): seq<Byte> {
    var image := EncodeUInt(v, 4, order, bigEndianHost);
    var offset := Offset24(order, bigEndianHost);
    image[offset..offset + 3]
  }

  function DecodeUInt24(s: seq<Byte>, order: Order, bigEndianHost: bool): nat
    requires |s| == 3
  {
    DecodeUInt(if Offset24(order, bigEndianHost) == 1 then [0] + s else s + [0], order, bigEndianHost)
  }

  function Encode(value: Value, order: Order, bigEndianHost: bool): seq<Byte> {
    match value
    case UInt8(v) => [v % 256]
    case UInt24(v) => EncodeUInt24(v, order, bigEndianHost)
    case Text(s) => s
    case _ => EncodeUInt(value.v, value.Width(), order, bigEndianHost)
  }

  /** Reads a value of the type of `like` from bytes of its width. */
  function Decode(like: Value, s: seq<Byte>, order: Order, bigEndianHost: bool): Value
    requires |s| == like.Width()
  {
    match like
    case UInt8(_) => UInt8(s[0])
    case UInt16(_) => UInt16(DecodeUInt(s, order, bigEndianHost))
    case UInt24(_) => UInt24(DecodeUInt24(s, order, bigEndianHost))
    case UInt32(_) => UInt32(DecodeUInt(s, order, bigEndianHost))
    case UInt64(_) => UInt64(DecodeUInt(s, order, bigEndianHost))
    case Text(_) => Text(s)
  }

  lemma WireFormat(v: nat, width: nat, order: Order, bigEndianHost: bool)
    ensures EncodeUInt(v, width, order, bigEndianHost) ==
            if order == Network || bigEndianHost then BigEndian(v, width) else LittleEndian(v, width)
  {
    NetworkImage(v, width, bigEndianHost);
  }

  /** The 24-bit form is the low three bytes in the same order. */
  lemma WireFormat24(v: nat, order: Order, bigEndianHost: bool)
    ensures EncodeUInt24(v, order, bigEndianHost) ==
            if order == Network || bigEndianHost then BigEndian(v, 3) else LittleEndian(v, 3)
  {
    WireFormat(v, 4, order, bigEndianHost);
    LowBytes(v, 3, 1);
  }

  lemma ReadFormat(s: seq<Byte>, order: Order, bigEndianHost: bool)
    ensures DecodeUInt(s, order, bigEndianHost) ==
            if order == Network || bigEndianHost then FromBigEndian(s) else FromLittleEndian(s)
  {
    WriteBackBig(s);
    WriteBackLittle(s);
  }

  lemma RoundTrip24(v: nat, order: Order, bigEndianHost: bool)
    ensures DecodeUInt24(EncodeUInt24(v, order, bigEndianHost), order, bigEndianHost) == v % Range(3)
  {
    var s := EncodeUInt24(v, order, bigEndianHost);
    WireFormat24(v, order, bigEndianHost);
    ReadFormat([0] + s, order, bigEndianHost);
    ReadFormat(s + [0], order, bigEndianHost);
    LeadingZeroBig(s);
    LeadingZeroLittle(s);
    ReadBack(v, 3);
  }

  lemma ValueRoundTrip(value: Value, order: Order, bigEndianHost: bool)
    requires value.WellTyped()
    ensures |Encode(value, order, bigEndianHost)| == value.Width()
    ensures Decode(value, Encode(value, order, bigEndianHost), order, bigEndianHost) == value.Stored()
  {
    match value
    case Text(_) =>
    case UInt8(v) =>
    case UInt24(v) => RoundTrip24(v, order, bigEndianHost);
    case _ =>
      var s := EncodeUInt(value.v, value.Width(), order, bigEndianHost);
      WireFormat(value.v, value.Width(), order, bigEndianHost);
      ReadFormat(s, order, bigEndianHost);
      ReadBackExact(value.v, value.Width());
  }

  function EncodeAll(values: seq<Value>, order: Order, bigEndianHost: bool): seq<Byte> {
    if values == [] then []
    else Encode(values[0], order, bigEndianHost) + EncodeAll(values[1..], order, bigEndianHost)
  }

  /** Reads one value after another, each of the type of its counterpart in `like`; `None` when
      the bytes run out. */
  function DecodeAll(like: seq<Value>, s: seq<Byte>, order: Order, bigEndianHost: bool): Option<(seq<Value>, seq<Byte>)>
    decreases |like|
  {
    if like == [] then Some(([], s))
    else if |s| < like[0].Width() then None
    else
      var width := like[0].Width();
      match DecodeAll(like[1..], s[width..], order, bigEndianHost)
      case None => None
      case Some((values, rest)) => Some(([Decode(like[0], s[..width], order, bigEndianHost)] + values, rest))
  }

  function AllStored(values: seq<Value>): seq<Value> {
    if values == [] then [] else [values[0].Stored()] + AllStored(values[1..])
  }

  /** Any list of values written one after the other reads back with the same types as the same
      list, in both orders and on both kinds of host, whatever follows them in the buffer, except
      that a 24-bit value comes back modulo 2^24. */
  lemma {:induction false} ListRoundTrip(values: seq<Value>, rest: seq<Byte>, order: Order, bigEndianHost: bool)
    requires forall value :: value in values ==> value.WellTyped()
    ensures DecodeAll(values, EncodeAll(values, order, bigEndianHost) + rest, order, bigEndianHost)
            == Some((AllStored(values), rest))
    decreases |values|
  {
    if values == [] {
      assert [] + rest == rest;
    } else {
      var first, more := Encode(values[0], order, bigEndianHost), EncodeAll(values[1..], order, bigEndianHost);
      ValueRoundTrip(values[0], order, bigEndianHost);
      ListRoundTrip(values[1..], rest, order, bigEndianHost);
      Associate(first, more, rest);
      var s := first + (more + rest);
      assert s[..|first|] == first && s[|first|..] == more + rest;
    }
  }

  /** What comes back is the list itself exactly when every 24-bit value is below 2^24. */
  lemma {:induction false} StoredUnchanged(values: seq<Value>)
    requires forall value :: value in values ==> value.WellTyped()
    ensures AllStored(values) == values <==> forall value :: value in values && value.UInt24? ==> value.v < Range(3)
    decreases |values|
  {
    if values != [] {
      StoredUnchanged(values[1..]);
      StoredExactly(values[0]);
      assert values == [values[0]] + values[1..];
      assert AllStored(values) == values <==> values[0].Stored() == values[0] && AllStored(values[1..]) == values[1..];
    }
  }

  lemma StoredExactly(value: Value)
    requires value.WellTyped()
    ensures value.Stored() == value <==> (value.UInt24? ==> value.v < Range(3))
  {
    if value.UInt24? && value.v < Range(3) {
      ModUnique(value.v, 0, Range(3));
    }
  }

  // ---------------------------------------------------------------- the class

  const DEFAULT_SIZE: nat := 4096

  class ByteBuffer {
    var bytes: array<Byte>
    var size: nat
    var start: nat
    var end: nat
    var version: nat
    const order: Order
    const bigEndianHost: bool

    ghost predicate Valid()
      reads this
    {
      bytes.Length == size && start <= end <= size
    }

    ghost function View(): (b: Buffer)
      requires Valid()
      reads this, bytes
      ensures b.Valid()
    {
      Buffer(bytes[..end], start, size, version)
    }

    constructor (order: Order, bigEndianHost: bool)
      ensures Valid() && fresh(bytes) && this.order == order && this.bigEndianHost == bigEndianHost
      ensures View() == Buffer([], 0, DEFAULT_SIZE, 0)
    {
      this.order, this.bigEndianHost := order, bigEndianHost;
      version, start, end, size := 0, 0, 0, DEFAULT_SIZE;
      bytes := new Byte[DEFAULT_SIZE];
    }

    constructor FromBytes(data: array<Byte>, order: Order, bigEndianHost: bool)
      ensures Valid() && fresh(bytes) && this.order == order && this.bigEndianHost == bigEndianHost
      ensures View() == Buffer(data[..], 0, data.Length, 0)
    {
      this.order, this.bigEndianHost := order, bigEndianHost;
      version, start, end, size := 0, 0, data.Length, data.Length;
      bytes := new Byte[data.Length];
      new;
      forall i | 0 <= i < data.Length {
        bytes[i] := data[i];
      }
    }

    function Length(): nat
      requires Valid()
      reads this
    {
      end - start
    }

    function Capacity(): nat
      requires Valid()
      reads this
    {
      size - start
    }

    method Resize(newSize: nat)
      requires Valid()
      modifies this, bytes
      ensures Valid() && (bytes == old(bytes) || fresh(bytes))
      ensures View() == old(View()).Resized(newSize)
    {
      var len := if end - start <= newSize then end - start else newSize;
      if newSize <= size {
        // No reallocation: move the data to the front, source and target may overlap.
        forall i | 0 <= i < len {
          bytes[i] := bytes[start + i];
        }
      } else {
        size := if newSize > 3 * size / 2 then newSize else 3 * size / 2;
        var newBytes := new Byte[size];
        forall i | 0 <= i < len {
          newBytes[i] := bytes[start + i];
        }
        bytes := newBytes;
      }
      start := 0;
      end := len;
      version := version + 1;
    }

    /** Makes room for `len` bytes at the end, and returns where they go; until the caller fills
        them in they hold whatever the memory held. */
    method ReserveWriteBuffer(len: nat) returns (offset: nat)
      requires Valid()
      modifies this, bytes
      ensures Valid() && (bytes == old(bytes) || fresh(bytes))
      ensures offset + len == end
      ensures View() == old(View()).Written(bytes[offset..end])
    {
      if Length() + len > Capacity() {
        Resize(Length() + len);
      }
      offset := end;
      end := end + len;
      assert bytes[..end] == bytes[..offset] + bytes[offset..end];
    }

    method WriteBytes(val: seq<Byte>)
      requires Valid()
      modifies this, bytes
      ensures Valid() && (bytes == old(bytes) || fresh(bytes))
      ensures View() == old(View()).Written(val)
    {
      var offset := ReserveWriteBuffer(|val|);
      ghost var reserved := View();
      Store(offset, val);
      SameRoom(old(View()), reserved.log[offset..], val);
    }

    method Store(offset: nat, val: seq<Byte>)
      requires Valid() && offset + |val| == end
      modifies bytes
      ensures Valid()
      ensures bytes[..end] == old(bytes[..offset]) + val
    {
      forall i | 0 <= i < |val| {
        bytes[offset + i] := val[i];
      }
    }

    static lemma SliceOfSlice(s: seq<Byte>, start: nat, end: nat, len: nat)
      requires start + len <= end <= |s|
      ensures s[start..start + len] == s[..end][start..][..len]
    {
    }

    method ReadBytes(len: nat) returns (val: Option<seq<Byte>>)
      requires Valid()
      modifies this
      ensures Valid() && bytes == old(bytes)
      ensures View() == old(View()).Taken(len)
      ensures val == if len <= |old(View()).Contents()| then Some(old(View()).Contents()[..len]) else None
    {
      if len > Length() {
        return None;
      }
      SliceOfSlice(bytes[..], start, end, len);
      assert bytes[start..start + len] == bytes[..][start..start + len];
      assert bytes[..end] == bytes[..][..end];
      val := Some(bytes[start..start + len]);
      start := start + len;
    }

    method Consume(len: nat) returns (ok: bool)
      requires Valid()
      modifies this
      ensures Valid() && bytes == old(bytes)
      ensures View() == old(View()).Taken(len)
      ensures ok <==> len <= |old(View()).Contents()|
    {
      if len > Length() {
        return false;
      }
      start := start + len;
      ok := true;
    }

    method GetReadPosition() returns (position: ReadPosition)
      requires Valid()
      ensures position == View().Position()
    {
      position := ReadPosition(start, version);
    }

    /** Checks the version only: a position of another buffer may be accepted and leave the buffer
        unusable, exactly if it lies past the end. */
    method SetReadPosition(position: ReadPosition) returns (ok: bool)
      requires Valid()
      modifies this`start
      ensures ok <==> old(View()).Accepts(position)
      ensures start == if ok then position.start else old(start)
      ensures Valid() <==> (ok ==> position.start <= end)
      ensures Valid() ==> View() == old(View()).Restored(position)
    {
      if position.version != version {
        return false;
      }
      start := position.start;
      ok := true;
    }

    method Clear()
      requires Valid()
      modifies this, bytes
      ensures Valid() && bytes == old(bytes)
      ensures View() == old(View()).Cleared()
    {
      forall i | 0 <= i < size {
        bytes[i] := 0;
      }
      start, end := 0, 0;
      version := version + 1;
    }

    method WriteUInt8(v: nat)
      requires Valid() && UInt8(v).WellTyped()
      modifies this, bytes
      ensures Valid() && (bytes == old(bytes) || fresh(bytes))
      ensures View() == old(View()).Written(Encode(UInt8(v), order, bigEndianHost))
    {
      assert Range(1) == 256;
      WriteBytes([v]);
    }

    method ReadUInt8() returns (val: Option<nat>)
      requires Valid()
      modifies this
      ensures Valid() && bytes == old(bytes)
      ensures View() == old(View()).Taken(1)
      ensures val.Some? <==> 1 <= |old(View()).Contents()|
      ensures val.Some? ==>
        UInt8(val.value) == Decode(UInt8(0), old(View()).Contents()[..1], order, bigEndianHost)
    {
      var s := ReadBytes(1);
      val := if s.Some? then Some(s.value[0]) else None;
    }

    method WriteUInt16(v: nat)
      requires Valid() && UInt16(v).WellTyped()
      modifies this, bytes
      ensures Valid() && (bytes == old(bytes) || fresh(bytes))
      ensures View() == old(View()).Written(Encode(UInt16(v), order, bigEndianHost))
    {
      var x := if order == Network then HostToNetwork(v, 2, bigEndianHost) else v;
      WriteBytes(HostImage(x, 2, bigEndianHost));
    }

    method ReadUInt16() returns (val: Option<nat>)
      requires Valid()
      modifies this
      ensures Valid() && bytes == old(bytes)
      ensures View() == old(View()).Taken(2)
      ensures val.Some? <==> 2 <= |old(View()).Contents()|
      ensures val.Some? ==>
        UInt16(val.value) == Decode(UInt16(0), old(View()).Contents()[..2], order, bigEndianHost)
    {
      var s := ReadBytes(2);
      if s.None? {
        return None;
      }
      var v := FromHostImage(s.value, bigEndianHost);
      val := Some(if order == Network then NetworkToHost(v, 2, bigEndianHost) else v);
    }

    method WriteUInt24(v: nat)
      requires Valid() && UInt24(v).WellTyped()
      modifies this, bytes
      ensures Valid() && (bytes == old(bytes) || fresh(bytes))
      ensures View() == old(View()).Written(Encode(UInt24(v), order, bigEndianHost))
    {
      var x := if order == Network then HostToNetwork(v, 4, bigEndianHost) else v;
      var offset := if order == Network || bigEndianHost then 1 else 0;
      WriteBytes(HostImage(x, 4, bigEndianHost)[offset..offset + 3]);
    }

    method ReadUInt24() returns (val: Option<nat>)
      requires Valid()
      modifies this
      ensures Valid() && bytes == old(bytes)
      ensures View() == old(View()).Taken(3)
      ensures val.Some? <==> 3 <= |old(View()).Contents()|
      ensures val.Some? ==>
        UInt24(val.value) == Decode(UInt24(0), old(View()).Contents()[..3], order, bigEndianHost)
    {
      var s := ReadBytes(3);
      if s.None? {
        return None;
      }
      var image := if order == Network || bigEndianHost then [0] + s.value else s.value + [0];
      var v := FromHostImage(image, bigEndianHost);
      val := Some(if order == Network then NetworkToHost(v, 4, bigEndianHost) else v);
    }

    method WriteUInt32(v: nat)
      requires Valid() && UInt32(v).WellTyped()
      modifies this, bytes
      ensures Valid() && (bytes == old(bytes) || fresh(bytes))
      ensures View() == old(View()).Written(Encode(UInt32(v), order, bigEndianHost))
    {
      var x := if order == Network then HostToNetwork(v, 4, bigEndianHost) else v;
      WriteBytes(HostImage(x, 4, bigEndianHost));
    }

    method ReadUInt32() returns (val: Option<nat>)
      requires Valid()
      modifies this
      ensures Valid() && bytes == old(bytes)
      ensures View() == old(View()).Taken(4)
      ensures val.Some? <==> 4 <= |old(View()).Contents()|
      ensures val.Some? ==>
        UInt32(val.value) == Decode(UInt32(0), old(View()).Contents()[..4], order, bigEndianHost)
    {
      var s := ReadBytes(4);
      if s.None? {
        return None;
      }
      var v := FromHostImage(s.value, bigEndianHost);
      val := Some(if order == Network then NetworkToHost(v, 4, bigEndianHost) else v);
    }

    method WriteUInt64(v: nat)
      requires Valid() && UInt64(v).WellTyped()
      modifies this, bytes
      ensures Valid() && (bytes == old(bytes) || fresh(bytes))
      ensures View() == old(View()).Written(Encode(UInt64(v), order, bigEndianHost))
    {
      var x := if order == Network then HostToNetwork(v, 8, bigEndianHost) else v;
      WriteBytes(HostImage(x, 8, bigEndianHost));
    }

    method ReadUInt64() returns (val: Option<nat>)
      requires Valid()
      modifies this
      ensures Valid() && bytes == old(bytes)
      ensures View() == old(View()).Taken(8)
      ensures val.Some? <==> 8 <= |old(View()).Contents()|
      ensures val.Some? ==>
        UInt64(val.value) == Decode(UInt64(0), old(View()).Contents()[..8], order, bigEndianHost)
    {
      var s := ReadBytes(8);
      if s.None? {
        return None;
      }
      var v := FromHostImage(s.value, bigEndianHost);
      val := Some(if order == Network then NetworkToHost(v, 8, bigEndianHost) else v);
    }
  }

  // ---------------------------------------------------------------- driving the class

  method WriteValue(b: ByteBuffer, value: Value)
    requires b.Valid() && value.WellTyped()
    modifies b, b.bytes
    ensures b.Valid() && (b.bytes == old(b.bytes) || fresh(b.bytes))
    ensures b.View() == old(b.View()).Written(Encode(value, b.order, b.bigEndianHost))
  {
    match value
    case UInt8(v) => b.WriteUInt8(v);
    case UInt16(v) => b.WriteUInt16(v);
    case UInt24(v) => b.WriteUInt24(v);
    case UInt32(v) => b.WriteUInt32(v);
    case UInt64(v) => b.WriteUInt64(v);
    case Text(s) => b.WriteBytes(s);
  }

  method ReadValue(b: ByteBuffer, like: Value) returns (value: Option<Value>)
    requires b.Valid()
    modifies b
    ensures b.Valid() && b.bytes == old(b.bytes)
    ensures b.View() == old(b.View()).Taken(like.Width())
    ensures value.Some? <==> like.Width() <= |old(b.View()).Contents()|
    ensures value.Some? ==>
      value.value == Decode(like, old(b.View()).Contents()[..like.Width()], b.order, b.bigEndianHost)
  {
    var v: Option<nat>;
    match like {
      case UInt8(_) => v := b.ReadUInt8();
      case UInt16(_) => v := b.ReadUInt16();
      case UInt24(_) => v := b.ReadUInt24();
      case UInt32(_) => v := b.ReadUInt32();
      case UInt64(_) => v := b.ReadUInt64();
      case Text(s) =>
        var t := b.ReadBytes(|s|);
        return if t.Some? then Some(Text(t.value)) else None;
    }
    if v.None? {
      return None;
    }
    match like
    case UInt8(_) => value := Some(UInt8(v.value));
    case UInt16(_) => value := Some(UInt16(v.value));
    case UInt24(_) => value := Some(UInt24(v.value));
    case UInt32(_) => value := Some(UInt32(v.value));
    case UInt64(_) => value := Some(UInt64(v.value));
    case Text(_) => assert false;
  }

  lemma WrittenContents(b: Buffer, data: seq<Byte>)
    requires b.Valid()
    ensures b.Written(data).Contents() == b.Contents() + data
  {
  }

  lemma TakenContents(b: Buffer, len: nat)
    requires b.Valid() && len <= |b.Contents()|
    ensures b.Taken(len).Contents() == b.Contents()[len..]
  {
  }

  method WriteAll(b: ByteBuffer, values: seq<Value>)
    requires b.Valid() && forall value :: value in values ==> value.WellTyped()
    modifies b, b.bytes
    ensures b.Valid() && (b.bytes == old(b.bytes) || fresh(b.bytes))
    ensures b.View().Contents() == old(b.View()).Contents() + EncodeAll(values, b.order, b.bigEndianHost)
    decreases |values|
  {
    if values == [] {
      return;
    }
    ghost var before := b.View();
    ghost var first := Encode(values[0], b.order, b.bigEndianHost);
    WriteValue(b, values[0]);
    ghost var between := b.View();
    assert between.Contents() == before.Contents() + first by {
      WrittenContents(before, first);
    }
    WriteAll(b, values[1..]);
    Associate(before.Contents(), first, EncodeAll(values[1..], b.order, b.bigEndianHost));
  }

  method ReadAll(b: ByteBuffer, like: seq<Value>) returns (read: Option<seq<Value>>)
    requires b.Valid()
    modifies b
    ensures b.Valid() && b.bytes == old(b.bytes)
    ensures var expected := DecodeAll(like, old(b.View()).Contents(), b.order, b.bigEndianHost);
      && (read.None? <==> expected.None?)
      && (read.Some? ==> expected == Some((read.value, b.View().Contents())))
    decreases |like|
  {
    if like == [] {
      return Some([]);
    }
    ghost var contents := b.View().Contents();
    if like[0].Width() <= |contents| {
      TakenContents(b.View(), like[0].Width());
    }
    var value := ReadValue(b, like[0]);
    if value.None? {
      return None;
    }
    var more := ReadAll(b, like[1..]);
    if more.None? {
      return None;
    }
    read := Some([value.value] + more.value);
  }

  /** Writes a list of values to a new buffer and reads it back with the same types, growing and
      compacting as it goes: the values return in order, and nothing else is left over. */
  method WriteThenRead(values: seq<Value>, order: Order, bigEndianHost: bool)
    returns (read: seq<Value>, leftOver: nat)
    requires forall value :: value in values ==> value.WellTyped()
    ensures read == AllStored(values) && leftOver == 0
  {
    var b := new ByteBuffer(order, bigEndianHost);
    WriteAll(b, values);
    ListRoundTrip(values, [], order, bigEndianHost);
    assert b.View().Contents() == EncodeAll(values, order, bigEndianHost) + [];
    var r := ReadAll(b, values);
    read := r.value;
    leftOver := b.Length();
  }
}
