/** Output streams: a window on a caller's buffer, or a counter that writes nothing. */
module OutStreams {
  import opened Common
  import opened Wire
  import opened Format

  /** What a stream holds: the bytes in front of its place, the room it has left, and the bytes behind its window.
      A sizing stream only counts. */
  datatype View = View(sizing: bool, written: nat, done: bytes, room: nat, behind: bytes)

  /** The contract of every writer. It succeeds exactly when there is something to write and room for all of it, and
      then adds exactly that. Come what may, it only ever adds: what was there before, and everything outside the
      window, is untouched. */
  predicate Emits(v: View, w: View, e: Option<bytes>, ok: bool) {
    && w.sizing == v.sizing && w.behind == v.behind
    && v.done <= w.done && |w.done| + w.room == |v.done| + v.room
    && (ok <==> e.Some? && (v.sizing || |e.value| <= v.room))
    && (ok ==> w.written == v.written + |e.value|)
    && (ok && !v.sizing ==> w.done == v.done + e.value)
  }

  /** One writer behind another. */
  lemma EmitsChain(u: View, v: View, w: View, a: bytes, e: Option<bytes>, ok: bool)
    requires Emits(u, v, Some(a), true) && Emits(v, w, e, ok)
    ensures Emits(u, w, Append(Some(a), e), ok)
  {
    if ok && !u.sizing {
      assert u.done + a + e.value == u.done + (a + e.value);
    }
  }

  /** What cannot write a beginning cannot write the whole. */
  lemma EmitsStops(u: View, v: View, a: Option<bytes>, e: Option<bytes>)
    requires Emits(u, v, a, false) && (e.Some? ==> a.Some? && a.value <= e.value)
    ensures Emits(u, v, e, false)
  {
  }

  /** A window of exactly the measured size is filled, and nothing around it is touched: neither in front, nor in the
      room that the parent has left, nor behind that. */
  lemma WindowFilled(was: bytes, now: bytes, from: nat, to: nat, behind: nat, w: View, body: bytes, ok: bool)
    requires from + |body| <= behind <= |was| == |now| && to + w.room <= |now|
    requires Emits(View(false, 0, was[..from], |body|, was[from + |body|..]), w, Some(body), ok)
    requires w.done == now[..to] && w.behind == now[to + w.room..]
    ensures ok && to == from + |body| && w.written == |body|
    ensures now[..to] == was[..from] + body && now[behind..] == was[behind..]
  {
    assert |w.done| == to;
    assert now[from + |body|..] == was[from + |body|..];
    assert now[behind..] == now[from + |body|..][behind - from - |body|..];
    assert was[behind..] == was[from + |body|..][behind - from - |body|..];
  }

  lemma WindowEmits(v: View, w: View, body: bytes)
    requires !v.sizing && |body| <= v.room
    requires w == View(false, v.written + |body|, v.done + body, v.room - |body|, v.behind)
    ensures Emits(v, w, Some(body), true)
  {
  }

  class OutStream {
    const buf: array<byte>
    const sizing: bool
    var pos: nat
    var maxSize: nat
    var bytesWritten: nat

    predicate Valid()
      reads this
    {
      sizing || (bytesWritten <= maxSize && pos + maxSize - bytesWritten <= buf.Length)
    }

    function Now(): View
      requires Valid()
      reads this, buf
    {
      if sizing then View(true, bytesWritten, [], 0, [])
      else View(false, bytesWritten, buf[..pos], maxSize - bytesWritten, buf[pos + maxSize - bytesWritten..])
    }

    constructor FromBuffer(buf: array<byte>, size: nat)
      requires size <= buf.Length
      ensures Valid() && this.buf == buf && !sizing && pos == 0 && bytesWritten == 0 && maxSize == size
    {
      this.buf, sizing, pos, maxSize, bytesWritten := buf, false, 0, size, 0;
    }

    constructor Sizing()
      ensures Valid() && sizing && bytesWritten == 0 && fresh(buf)
    {
      buf, sizing, pos, maxSize, bytesWritten := new byte[0], true, 0, 0, 0;
    }

    /** A window of `size` bytes from where the parent stands. */
    constructor Window(parent: OutStream, size: nat)
      requires parent.Valid() && !parent.sizing && parent.bytesWritten + size <= parent.maxSize
      ensures Valid() && buf == parent.buf && !sizing && pos == parent.pos && bytesWritten == 0 && maxSize == size
    {
      buf, sizing, pos, maxSize, bytesWritten := parent.buf, false, parent.pos, size, 0;
    }

    /** pb_write. A sizing stream is only told the count. */
    method Write(data: bytes, count: nat) returns (ok: bool)
      requires Valid() && (sizing || |data| == count)
      modifies this, buf
      ensures Valid()
      ensures sizing ==> ok && Now() == old(Now()).(written := old(bytesWritten) + count)
      ensures !sizing ==> Emits(old(Now()), Now(), Some(data), ok)
    {
      if !sizing {
        if bytesWritten + count > maxSize {
          return false;
        }
        Callback(data);
      }
      bytesWritten := bytesWritten + count;
      return true;
    }

    method Callback(data: bytes)
      requires pos + |data| <= buf.Length
      modifies this`pos, buf
      ensures pos == old(pos) + |data|
      ensures buf[..pos] == old(buf[..pos]) + data
      ensures buf[pos..] == old(buf[pos + |data|..])
    {
      var dest := pos;
      pos := dest + |data|;
      var i := 0;
      while i < |data|
        modifies buf
        invariant i <= |data|
        invariant forall k :: 0 <= k < i ==> buf[dest + k] == data[k]
        invariant forall k :: 0 <= k < dest || dest + i <= k < buf.Length ==> buf[k] == old(buf[k])
      {
        buf[dest + i] := data[i];
        i := i + 1;
      }
    }

    /** Goes on behind what was written through a window that began where this stream stands. */
    method Absorb(sub: OutStream, ghost was: bytes, ghost start: View, ghost body: bytes, ghost status: bool)
      requires Valid() && !sizing && sub.Valid() && !sub.sizing && sub != this && sub.buf == buf
      requires |was| == buf.Length && bytesWritten + |body| <= maxSize
      requires start == View(false, bytesWritten, was[..pos], maxSize - bytesWritten,
                             was[pos + maxSize - bytesWritten..])
      requires Emits(View(false, 0, was[..pos], |body|, was[pos + |body|..]), sub.Now(), Some(body), status)
      modifies this
      ensures Valid() && status && sub.bytesWritten == |body| && Emits(start, Now(), Some(body), true)
    {
      ghost var behind, room, now := pos + maxSize - bytesWritten, maxSize - bytesWritten, buf[..];
      WindowFilled(was, now, pos, sub.pos, behind, sub.Now(), body, status);
      bytesWritten := bytesWritten + sub.bytesWritten;
      pos := sub.pos;
      assert pos + maxSize - bytesWritten == behind && maxSize - bytesWritten == room - |body|;
      assert buf[..pos] == now[..pos] && buf[behind..] == now[behind..];
      WindowEmits(start, Now(), body);
    }

    method WriteBytes(data: bytes) returns (ok: bool)
      requires Valid()
      modifies this, buf
      ensures Valid() && Emits(old(Now()), Now(), Some(data), ok)
    {
      ok := Write(data, |data|);
    }

    method EncodeVarint(value: nat) returns (ok: bool)
      requires Valid() && value < TWO64
      modifies this, buf
      ensures Valid() && Emits(old(Now()), Now(), Some(Varint(value)), ok)
    {
      if value <= 0x7F {
        ok := WriteBytes([value]);
        return;
      }
      var buffer := new byte[10];
      var i := FillVarint(buffer, value);
      ok := WriteBytes(buffer[..i]);
    }
  }

  /** One byte of the form more. */
  lemma FillStep(whole: bytes, done: bytes, rest: nat)
    requires rest > 0 && whole == done + Varint(rest)
    ensures rest < 128 ==> whole == done + [rest]
    ensures rest >= 128 ==> whole == (done + [rest % 128 + 128]) + Varint(rest / 128)
    ensures |done| < |whole|
  {
    if rest >= 128 {
      assert done + ([rest % 128 + 128] + Varint(rest / 128)) == (done + [rest % 128 + 128]) + Varint(rest / 128);
    }
  }

  /** The loop of pb_encode_varint: ten bytes are always enough, and the top bit of the last one is unset. */
  method FillVarint(buffer: array<byte>, value: nat) returns (i: nat)
    requires buffer.Length == 10 && 0 < value < TWO64
    modifies buffer
    ensures i <= 10 && buffer[..i] == Varint(value)
  {
    VarintFits(value);
    i := 0;
    var rest: nat := value;
    while rest > 0
      invariant i <= 10 && (rest == 0 ==> i > 0 && buffer[i - 1] >= 128)
      invariant rest > 0 ==> Varint(value) == buffer[..i] + Varint(rest)
      invariant rest == 0 ==> Varint(value) == buffer[..i - 1] + [buffer[i - 1] - 128]
    {
      ghost var done := buffer[..i];
      FillStep(Varint(value), done, rest);
      buffer[i] := rest % 128 + 128;
      assert buffer[..i] == done && buffer[..i + 1] == done + [buffer[i]];
      rest := rest / 128;
      i := i + 1;
    }
    ghost var done := buffer[..i - 1];
    buffer[i - 1] := buffer[i - 1] - 128;
    assert buffer[..i - 1] == done && buffer[..i] == done + [buffer[i - 1]];
  }
}
