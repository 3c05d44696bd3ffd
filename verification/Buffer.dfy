/** The reactor's byte buffer (cpp_learning_projects/muduo-mgkl/include/Buffer.hpp:20-133 and
    src/Buffer.cpp:7-53), and the queue of bytes it stands for. */
module Buffer {

  const CHEAP_PREPEND: nat := 8
  const INITIAL_SIZE: nat := 1024
  const EXTRA_SIZE: nat := 65536

  // ---------------------------------------------------------------- indices

  /** The two indices into a vector of `size` bytes. */
  datatype Layout = Layout(reader: nat, writer: nat, size: nat) {
    predicate Valid() {
      CHEAP_PREPEND <= reader <= writer <= size
    }

    function Readable(): int { writer - reader }

    function Writable(): int { size - writer }
  }

  function Retrieved(l: Layout, len: nat): Layout
    requires l.Valid()
  {
    if len < l.Readable() then l.(reader := l.reader + len) else Layout(CHEAP_PREPEND, CHEAP_PREPEND, l.size)
  }

  function Ensured(l: Layout, len: nat): Layout
    requires l.Valid()
  {
    if l.Writable() >= len then l
    else if l.Writable() + l.reader < len + CHEAP_PREPEND then l.(size := l.writer + len)
    else Layout(CHEAP_PREPEND, CHEAP_PREPEND + l.Readable(), l.size)
  }

  function Appended(l: Layout, len: nat): Layout
    requires l.Valid()
  {
    var m := Ensured(l, len);
    m.(writer := m.writer + len)
  }

  /** The most one scatter read can deliver. */
  function ReadLimit(l: Layout): nat
    requires l.Valid()
  {
    l.Writable() + if l.Writable() < EXTRA_SIZE then EXTRA_SIZE else 0
  }

  function ReadInto(l: Layout, n: nat): Layout
    requires l.Valid()
  {
    if n <= l.Writable() then l.(writer := l.writer + n)
    else Appended(l.(writer := l.size), n - l.Writable())
  }

  /** Room is made without touching the number of readable bytes, and the vector grows exactly when the
      readable and the new bytes together do not fit behind the prefix. */
  lemma GrowsIff(l: Layout, len: nat)
    requires l.Valid()
    ensures var m := Ensured(l, len);
      && m.Valid() && m.Readable() == l.Readable() && m.Writable() >= len && m.size >= l.size
      && (m.size > l.size <==> CHEAP_PREPEND + l.Readable() + len > l.size)
      && (m.size > l.size ==> m.size < l.Readable() + 2 * len + CHEAP_PREPEND)
  {
  }

  /** Taking everything makes the whole vector behind the prefix writable again, without moving a byte. */
  lemma EmptiedIsWritable(l: Layout, len: nat)
    requires l.Valid()
    ensures var m := Retrieved(l, len);
      if len < l.Readable() then m == l.(reader := m.reader) && m.Readable() == l.Readable() - len
      else m.Readable() == 0 && m.Writable() == l.size - CHEAP_PREPEND && m.size == l.size
  {
  }

  datatype Op = Append(n: nat) | Retrieve(n: nat) | Read(n: nat)

  function ApplyOp(l: Layout, op: Op): Layout
    requires l.Valid()
  {
    match op
    case Append(n) => Appended(l, n)
    case Retrieve(n) => Retrieved(l, n)
    case Read(n) => ReadInto(l, n)
  }

  lemma OpKeeps(l: Layout, op: Op)
    requires l.Valid()
    ensures ApplyOp(l, op).Valid() && ApplyOp(l, op).size >= l.size
    ensures ApplyOp(l, op).Readable() == match op
      case Retrieve(n) => if n < l.Readable() then l.Readable() - n else 0
      case _ => l.Readable() + op.n
    ensures ApplyOp(l, op).size > l.size ==> ApplyOp(l, op).size < ApplyOp(l, op).Readable() + op.n + CHEAP_PREPEND
  {
    match op
    case Append(n) => GrowsIff(l, n);
    case Retrieve(_) =>
    case Read(n) =>
      if n > l.Writable() {
        GrowsIff(l.(writer := l.size), n - l.Writable());
      }
  }

  /** Every operation of the run moves at most `most` bytes and leaves at most `backlog` readable. */
  ghost predicate Within(l: Layout, ops: seq<Op>, backlog: nat, most: nat)
    requires l.Valid()
    decreases |ops|
  {
    ops != [] ==>
      var m := ApplyOp(l, ops[0]);
      ops[0].n <= most && m.Valid() && m.Readable() <= backlog && Within(m, ops[1..], backlog, most)
  }

  ghost function AfterOps(l: Layout, ops: seq<Op>): (m: Layout)
    requires l.Valid()
    ensures m.Valid()
    decreases |ops|
  {
    if ops == [] then l else OpKeeps(l, ops[0]); AfterOps(ApplyOp(l, ops[0]), ops[1..])
  }

  /** Over any run, however long, the vector stays within the backlog, one message and the prefix. */
  lemma {:induction false} SizeBounded(l: Layout, ops: seq<Op>, backlog: nat, most: nat)
    requires l.Valid() && Within(l, ops, backlog, most)
    ensures AfterOps(l, ops).size == l.size || AfterOps(l, ops).size < backlog + most + CHEAP_PREPEND
    decreases |ops|
  {
    if ops != [] {
      OpKeeps(l, ops[0]);
      SizeBounded(ApplyOp(l, ops[0]), ops[1..], backlog, most);
    }
  }

  // ---------------------------------------------------------------- the queue of bytes

  /** An append, a scatter read that delivers `data`, or a retrieval of at most `len` bytes. */
  datatype Event = Put(data: seq<char>) | Receive(data: seq<char>) | Take(len: nat)

  function OpOf(event: Event): Op {
    match event
    case Put(data) => Append(|data|)
    case Receive(data) => Read(|data|)
    case Take(len) => Retrieve(len)
  }

  function OpsOf(events: seq<Event>): seq<Op> {
    seq(|events|, i requires 0 <= i < |events| => OpOf(events[i]))
  }

  /** No scatter read delivers more than it has room for. */
  ghost predicate Deliverable(l: Layout, events: seq<Event>)
    requires l.Valid()
    decreases |events|
  {
    events != [] ==>
      var m := ApplyOp(l, OpOf(events[0]));
      && (events[0].Receive? ==> |events[0].data| <= ReadLimit(l))
      && m.Valid() && Deliverable(m, events[1..])
  }

  function Taken(contents: seq<char>, len: nat): seq<char> {
    if len < |contents| then contents[..len] else contents
  }

  function Rest(contents: seq<char>, len: nat): seq<char> {
    if len < |contents| then contents[len..] else []
  }

  function LeftBy(contents: seq<char>, event: Event): seq<char> {
    if event.Take? then Rest(contents, event.len) else contents + event.data
  }

  function TakenBy(contents: seq<char>, event: Event): seq<char> {
    if event.Take? then Taken(contents, event.len) else []
  }

  /** The contents after a run of appends, reads and retrievals, and what the retrievals took. */
  function AfterEvents(contents: seq<char>, events: seq<Event>): (seq<char>, seq<char>)
    decreases |events|
  {
    if events == [] then (contents, [])
    else
      var (rest, taken) := AfterEvents(LeftBy(contents, events[0]), events[1..]);
      (rest, TakenBy(contents, events[0]) + taken)
  }

  function AllPut(events: seq<Event>): seq<char>
    decreases |events|
  {
    if events == [] then []
    else (if events[0].Take? then [] else events[0].data) + AllPut(events[1..])
  }

  /** Bytes leave in the order they came, none lost and none twice. */
  lemma {:induction false} FirstInFirstOut(contents: seq<char>, events: seq<Event>)
    ensures var (rest, taken) := AfterEvents(contents, events); taken + rest == contents + AllPut(events)
    decreases |events|
  {
    if events == [] {
      assert [] + contents == contents + [];
    } else {
      var e, more := events[0], AllPut(events[1..]);
      var front, back := TakenBy(contents, e), LeftBy(contents, e);
      FirstInFirstOut(back, events[1..]);
      var (rest, taken) := AfterEvents(back, events[1..]);
      Regroup(front, taken, rest);
      Regroup(front, back, more);
      if e.Take? {
        assert front + back == contents && [] + more == more;
      } else {
        assert front + back == contents + e.data;
        Regroup(contents, e.data, more);
      }
    }
  }

  lemma Regroup(a: seq<char>, b: seq<char>, c: seq<char>)
    ensures (a + b) + c == a + (b + c)
  {
  }

  // ---------------------------------------------------------------- the buffer

  datatype ReadResult = Failed | Got(data: seq<char>)

  class Buffer {
    var buffer: array<char>
    var readerIndex: nat
    var writerIndex: nat

    ghost predicate Valid()
      reads this
    {
      Abs().Valid()
    }

    function Abs(): Layout
      reads this
    {
      Layout(readerIndex, writerIndex, buffer.Length)
    }

    /** The bytes not yet read, oldest first. */
    ghost function Contents(): seq<char>
      requires Valid()
      reads this, buffer
    {
      buffer[readerIndex..writerIndex]
    }

    constructor (initialSize: nat)
      ensures Valid() && fresh(buffer) && Contents() == []
      ensures Abs() == Layout(CHEAP_PREPEND, CHEAP_PREPEND, CHEAP_PREPEND + initialSize)
    {
      buffer := new char[CHEAP_PREPEND + initialSize](_ => '\0');
      readerIndex, writerIndex := CHEAP_PREPEND, CHEAP_PREPEND;
    }

    method Retrieve(len: nat)
      requires Valid()
      modifies `readerIndex, `writerIndex
      ensures Valid() && Abs() == Retrieved(old(Abs()), len)
      ensures Contents() == Rest(old(Contents()), len)
    {
      if len < writerIndex - readerIndex {
        readerIndex := readerIndex + len;
      } else {
        RetrieveAll();
      }
    }

    method RetrieveAll()
      requires Valid()
      modifies `readerIndex, `writerIndex
      ensures Valid() && Contents() == [] && Abs() == Layout(CHEAP_PREPEND, CHEAP_PREPEND, old(buffer.Length))
    {
      readerIndex := CHEAP_PREPEND;
      writerIndex := CHEAP_PREPEND;
    }

    method RetrieveAsString(len: nat) returns (result: seq<char>)
      requires Valid() && len <= |Contents()|
      modifies `readerIndex, `writerIndex
      ensures Valid() && Abs() == Retrieved(old(Abs()), len)
      ensures |result| == len && old(Contents()) == result + Contents()
    {
      result := buffer[readerIndex..readerIndex+len];
      assert Contents()[..len] == result;
      assert Contents() == result + Contents()[len..];
      Retrieve(len);
    }

    method EnsureWritableBytes(len: nat)
      requires Valid()
      modifies this, buffer
      ensures Valid() && Contents() == old(Contents()) && Abs() == Ensured(old(Abs()), len)
      ensures buffer == old(buffer) || fresh(buffer)
    {
      if buffer.Length - writerIndex < len {
        MakeSpace(len);
      }
    }

    method MakeSpace(len: nat)
      requires Valid() && buffer.Length - writerIndex < len
      modifies this, buffer
      ensures Valid() && Contents() == old(Contents()) && Abs() == Ensured(old(Abs()), len)
      ensures buffer == old(buffer) || fresh(buffer)
    {
      if buffer.Length - writerIndex + readerIndex < len + CHEAP_PREPEND {
        Resize(writerIndex + len);
      } else {
        Compact();
      }
    }

    /** `std::vector::resize`: the old bytes, followed by zeros. */
    method Resize(size: nat)
      requires Valid() && size >= buffer.Length
      modifies `buffer
      ensures fresh(buffer) && buffer.Length == size && Valid() && Contents() == old(Contents())
      ensures buffer[..old(buffer.Length)] == old(buffer[..])
    {
      var bytes := new char[size](_ => '\0');
      for i := 0 to buffer.Length
        modifies bytes
        invariant bytes[..i] == buffer[..i]
      {
        bytes[i] := buffer[i];
        assert bytes[..i+1] == bytes[..i] + [bytes[i]] && buffer[..i+1] == buffer[..i] + [buffer[i]];
      }
      ghost var was := buffer[..];
      assert bytes[..|was|] == was;
      assert bytes[readerIndex..writerIndex] == bytes[..|was|][readerIndex..writerIndex];
      buffer := bytes;
    }

    /** Move the readable bytes down to the prefix, front first; the two ranges may overlap. */
    method Compact()
      requires Valid()
      modifies `readerIndex, `writerIndex, buffer
      ensures Valid() && Contents() == old(Contents())
      ensures Abs() == Layout(CHEAP_PREPEND, CHEAP_PREPEND + old(Abs()).Readable(), old(buffer.Length))
    {
      var readable := writerIndex - readerIndex;
      ghost var was := buffer[..];
      for i := 0 to readable
        modifies buffer
        invariant buffer[CHEAP_PREPEND..CHEAP_PREPEND+i] == was[readerIndex..readerIndex+i]
        invariant buffer[CHEAP_PREPEND+i..] == was[CHEAP_PREPEND+i..]
      {
        assert buffer[readerIndex + i] == buffer[CHEAP_PREPEND+i..][readerIndex - CHEAP_PREPEND];
        buffer[CHEAP_PREPEND + i] := buffer[readerIndex + i];
        assert buffer[CHEAP_PREPEND..CHEAP_PREPEND+i+1] ==
          buffer[CHEAP_PREPEND..CHEAP_PREPEND+i] + [was[readerIndex + i]];
        assert was[readerIndex..readerIndex+i+1] == was[readerIndex..readerIndex+i] + [was[readerIndex + i]];
        assert buffer[CHEAP_PREPEND+i+1..] == was[CHEAP_PREPEND+i+1..] by {
          assert was[CHEAP_PREPEND+i+1..] == was[CHEAP_PREPEND+i..][1..];
        }
      }
      readerIndex := CHEAP_PREPEND;
      writerIndex := CHEAP_PREPEND + readable;
    }

    /** Copy `data` behind the readable bytes, where there is room for it. */
    method Fill(data: seq<char>)
      requires Valid() && |data| <= buffer.Length - writerIndex
      modifies buffer
      ensures Valid() && buffer[writerIndex..writerIndex+|data|] == data
      ensures buffer[..writerIndex] == old(buffer[..writerIndex])
    {
      for i := 0 to |data|
        invariant buffer[writerIndex..writerIndex+i] == data[..i]
        invariant buffer[..writerIndex] == old(buffer[..writerIndex])
      {
        buffer[writerIndex + i] := data[i];
        assert buffer[writerIndex..writerIndex+i+1] == buffer[writerIndex..writerIndex+i] + [data[i]];
        assert data[..i+1] == data[..i] + [data[i]];
      }
      assert data[..|data|] == data;
    }

    method Append(data: seq<char>)
      requires Valid()
      modifies this, buffer
      ensures Valid() && Contents() == old(Contents()) + data && Abs() == Appended(old(Abs()), |data|)
      ensures buffer == old(buffer) || fresh(buffer)
    {
      EnsureWritableBytes(|data|);
      Fill(data);
      Advance(data, |data|);
    }

    /** Count the bytes that lie behind the readable ones as readable. */
    method Advance(ghost data: seq<char>, n: nat)
      requires Valid() && n == |data| <= buffer.Length - writerIndex && buffer[writerIndex..writerIndex+n] == data
      modifies `writerIndex
      ensures Valid() && Contents() == old(Contents()) + data && Abs() == old(Abs()).(writer := old(writerIndex) + n)
    {
      assert buffer[readerIndex..writerIndex+n] ==
        buffer[readerIndex..writerIndex] + buffer[writerIndex..writerIndex+n];
      writerIndex := writerIndex + n;
    }

    /** A scatter read: `result` is what the kernel delivers, first behind the readable bytes and then into
        an area beside the buffer, which is appended. */
    method ReadFd(result: ReadResult) returns (n: int)
      requires Valid() && (result.Got? ==> |result.data| <= ReadLimit(Abs()))
      modifies this, buffer
      ensures Valid() && (buffer == old(buffer) || fresh(buffer))
      ensures result.Failed? ==> n == -1 && Contents() == old(Contents()) && Abs() == old(Abs())
      ensures result.Got? ==>
        n == |result.data| && Contents() == old(Contents()) + result.data && Abs() == ReadInto(old(Abs()), n)
    {
      if result.Failed? {
        return -1;
      }
      var data := result.data;
      n := |data|;
      var writable := buffer.Length - writerIndex;
      if n <= writable {
        Fill(data);
        Advance(data, n);
      } else {
        assert data == data[..writable] + data[writable..];
        FillUp(data[..writable]);
        Append(data[writable..]);
      }
    }

    /** Data of just the size of the room behind the readable bytes. */
    method FillUp(data: seq<char>)
      requires Valid() && |data| == buffer.Length - writerIndex
      modifies `writerIndex, buffer
      ensures Valid() && Contents() == old(Contents()) + data && Abs() == old(Abs()).(writer := buffer.Length)
    {
      Fill(data);
      Advance(data, |data|);
    }
  }

  /** A run of one buffer.  What is taken and what is left are all the bytes put in, in order, after those
      that were there; and the vector has the size the run of indices says. */
  method Play(b: Buffer, events: seq<Event>) returns (taken: seq<char>)
    requires b.Valid() && Deliverable(b.Abs(), events)
    modifies b, b.buffer
    ensures b.Valid() && (b.buffer == old(b.buffer) || fresh(b.buffer))
    ensures (b.Contents(), taken) == AfterEvents(old(b.Contents()), events)
    ensures taken + b.Contents() == old(b.Contents()) + AllPut(events)
    ensures b.Abs() == AfterOps(old(b.Abs()), OpsOf(events))
    decreases |events|
  {
    FirstInFirstOut(b.Contents(), events);
    if events == [] {
      return [];
    }
    assert OpsOf(events)[1..] == OpsOf(events[1..]);
    var front := Step(b, events[0]);
    var back := Play(b, events[1..]);
    taken := front + back;
  }

  method Step(b: Buffer, event: Event) returns (taken: seq<char>)
    requires b.Valid() && (event.Receive? ==> |event.data| <= ReadLimit(b.Abs()))
    modifies b, b.buffer
    ensures b.Valid() && (b.buffer == old(b.buffer) || fresh(b.buffer))
    ensures b.Abs() == ApplyOp(old(b.Abs()), OpOf(event))
    ensures b.Contents() == LeftBy(old(b.Contents()), event) && taken == TakenBy(old(b.Contents()), event)
  {
    match event {
      case Put(data) =>
        b.Append(data);
        return [];
      case Receive(data) =>
        var _ := b.ReadFd(Got(data));
        return [];
      case Take(len) =>
        var readable := b.writerIndex - b.readerIndex;
        if len < readable {
          taken := b.RetrieveAsString(len);
        } else {
          taken := b.RetrieveAsString(readable);
        }
    }
  }
}
