/** Receiving one message: the loop that fills the server thread's buffer chunk by chunk until a
    newline shows up in it. */
module Receive {
  import opened Machine
  import opened Lines
  import opened Server

  /** The string a C function sees in a buffer: the bytes before the first NUL. */
  function CString(s: bytes): bytes
  {
    if s == [] || s[0] == NUL then [] else [s[0]] + CString(s[1..])
  }

  lemma {:induction false} CStringPadded(s: bytes, padding: bytes)
    requires padding != [] ==> padding[0] == NUL
    ensures CString(s + padding) == CString(s)
  {
    if s == [] {
      assert s + padding == padding;
    } else {
      assert (s + padding)[1..] == s[1..] + padding;
      CStringPadded(s[1..], padding);
    }
  }

  lemma TextPrefix(s: bytes, n: nat)
    requires 0 !in s && n <= |s|
    ensures CString(s[..n]) == s[..n]
  {
    CStringOfText(s[..n]);
  }

  lemma {:induction false} CStringOfText(s: bytes)
    requires 0 !in s
    ensures CString(s) == s
  {
    if s == [] {
    } else {
      CStringOfText(s[1..]);
    }
  }

  /** A connection as recv shows it: the bytes the peer sends before it closes and, for each recv
      made while the server keeps running, how many bytes beyond the first have arrived. */
  datatype Connection = Connection(stream: bytes, arrived: seq<nat>)

  /** The bytes the i-th recv returns: none only at the end of the stream or when none are asked for. */
  function Recv(c: Connection, i: nat, got: nat, room: nat): (n: nat)
    requires i < |c.arrived| && got <= |c.stream|
    ensures n <= room && got + n <= |c.stream|
    ensures n == 0 <==> room == 0 || got == |c.stream|
  {
    var left := |c.stream| - got;
    var n := if c.arrived[i] + 1 < left then c.arrived[i] + 1 else left;
    if n < room then n else room
  }

  /** How much of the stream the loop takes, from its i-th turn on. */
  function Taken(c: Connection, i: nat, got: nat): (total: nat)
    requires i <= |c.arrived| && got <= |c.stream| && got < BUFFERSIZE
    ensures got <= total <= |c.stream| && total < BUFFERSIZE
    decreases |c.arrived| - i
  {
    if i == |c.arrived| then got
    else
      var n := Recv(c, i, got, BUFFERSIZE - got - 1);
      if n == 0 then got
      else if NEWLINE in CString(c.stream[..got + n]) then got + n
      else Taken(c, i + 1, got + n)
  }

  function Nuls(n: nat): (s: bytes)
    ensures |s| == n && forall k :: 0 <= k < n ==> s[k] == 0
  {
    seq(n, _ => NUL)
  }

  /** The contents of a buffer of `size` bytes that has received these. */
  function Filled(received: bytes, size: nat): bytes
    requires |received| <= size
  {
    received + Nuls(size - |received|)
  }

  lemma FilledFurther(stream: bytes, got: nat, n: nat, size: nat)
    requires got + n <= |stream| && got + n <= size
    ensures Filled(stream[..got], size)[..got] + stream[got..got + n] + Filled(stream[..got], size)[got + n..]
         == Filled(stream[..got + n], size)
  {
    var a, b := Filled(stream[..got], size), Filled(stream[..got + n], size);
    assert a[..got] == stream[..got] == b[..got];
    assert a[got + n..] == Nuls(size - got - n) == b[got + n..];
    assert stream[got..got + n] == b[got..got + n];
  }

  lemma FilledAsCString(received: bytes, size: nat)
    requires |received| <= size
    ensures CString(Filled(received, size)) == CString(received)
  {
    CStringPadded(received, Nuls(size - |received|));
  }

  /** recv into the buffer behind what it already holds. */
  method RecvInto(c: Connection, i: nat, buffer: array<byte>, got: nat, room: nat) returns (n: nat)
    requires i < |c.arrived| && got <= |c.stream| && got + room <= buffer.Length
    modifies buffer
    ensures n == Recv(c, i, got, room)
    ensures buffer[..] == old(buffer[..got]) + c.stream[got..got + n] + old(buffer[got + n..])
  {
    n := Recv(c, i, got, room);
    forall k | 0 <= k < n {
      buffer[got + k] := c.stream[got + k];
    }
    ghost var now := buffer[..];
    assert now[..got] == old(buffer[..got]) && now[got + n..] == old(buffer[got + n..]);
    assert now[got..got + n] == c.stream[got..got + n];
    assert now == now[..got] + now[got..got + n] + now[got + n..];
  }

  /** strchr for a newline, on the buffer as a string. */
  method SeesNewline(buffer: array<byte>, received: bytes) returns (seen: bool)
    requires |received| <= buffer.Length && buffer[..] == Filled(received, buffer.Length)
    ensures seen <==> NEWLINE in CString(received)
  {
    FilledAsCString(received, buffer.Length);
    seen := NEWLINE in CString(buffer[..]);
  }

  /** What one turn decides, from the bytes it received and whether it saw a newline. */
  lemma TakenTurn(c: Connection, i: nat, got: nat, n: nat)
    requires i < |c.arrived| && got <= |c.stream| && got < BUFFERSIZE
    requires n == Recv(c, i, got, BUFFERSIZE - got - 1)
    ensures n == 0 ==> Taken(c, i, got) == got
    ensures n != 0 && NEWLINE in CString(c.stream[..got + n]) ==> Taken(c, i, got) == got + n
    ensures n != 0 && NEWLINE !in CString(c.stream[..got + n]) ==> Taken(c, i, got) == Taken(c, i + 1, got + n)
  {
  }

  /** recv and strchr, on a buffer that holds what was received before. */
  method ReceiveTurn(c: Connection, i: nat, buffer: array<byte>, got: nat) returns (n: nat, seen: bool)
    requires i < |c.arrived| && got <= |c.stream| && got < BUFFERSIZE == buffer.Length
    requires buffer[..] == Filled(c.stream[..got], BUFFERSIZE)
    modifies buffer
    ensures n == Recv(c, i, got, BUFFERSIZE - got - 1)
    ensures buffer[..] == Filled(c.stream[..got + n], BUFFERSIZE)
    ensures Taken(c, i, got) == if n == 0 || seen then got + n else Taken(c, i + 1, got + n)
  {
    n := RecvInto(c, i, buffer, got, BUFFERSIZE - got - 1);
    FilledFurther(c.stream, got, n, BUFFERSIZE);
    seen := SeesNewline(buffer, c.stream[..got + n]);
    TakenTurn(c, i, got, n);
  }

  /** The receive loop. The buffer ends up holding what was taken, followed by NULs; the test for
      doubling the buffer never succeeds, since recv always leaves room for one more byte. */
  method AssembleMessage(c: Connection) returns (buffer: array<byte>, totalBytesRead: nat)
    ensures buffer.Length == 48_000 && totalBytesRead == Taken(c, 0, 0) <= 47_999
    ensures buffer[..] == Filled(c.stream[..totalBytesRead], BUFFERSIZE)
  {
    buffer := new byte[BUFFERSIZE](_ => NUL);
    var bufferSize := BUFFERSIZE;
    totalBytesRead := 0;
    var i := 0;
    ghost var goal := Taken(c, 0, 0);
    while i < |c.arrived|
      invariant 0 <= i <= |c.arrived| && totalBytesRead <= |c.stream| && totalBytesRead < BUFFERSIZE == bufferSize
      invariant goal == Taken(c, i, totalBytesRead)
      invariant buffer[..] == Filled(c.stream[..totalBytesRead], BUFFERSIZE)
    {
      var n, seen := ReceiveTurn(c, i, buffer, totalBytesRead);
      totalBytesRead := totalBytesRead + n;
      if n == 0 || seen {
        break;
      }
      if totalBytesRead == bufferSize {
        assert false;
      }
      i := i + 1;
    }
  }

  /** One turn of the loop on text. */
  lemma TakenStep(c: Connection, i: nat, got: nat)
    requires i < |c.arrived| && got <= |c.stream| && got < BUFFERSIZE && 0 !in c.stream
    ensures var n := Recv(c, i, got, BUFFERSIZE - got - 1);
            Taken(c, i, got) == if n == 0 || NEWLINE in c.stream[..got + n] then got + n else Taken(c, i + 1, got + n)
  {
    TextPrefix(c.stream, got + Recv(c, i, got, BUFFERSIZE - got - 1));
  }

  /** The reason for a message to end where it does: a newline in it, the end of the stream, or a
      full buffer. */
  predicate Ends(stream: bytes, total: nat)
    requires total <= |stream|
  {
    NEWLINE in stream[..total] || total == |stream| || total == 47_999
  }

  /** The message of `total` bytes is newline-free up to `before` and the rest is what the recv
      of turn `at` returned; it has a reason to end there unless the server stopped running. */
  predicate StopsAt(c: Connection, before: nat, at: nat, total: nat)
    requires total <= |c.stream|
  {
    && before <= total && before < BUFFERSIZE && at <= |c.arrived|
    && NEWLINE !in c.stream[..before]
    && if at == |c.arrived| then total == before
       else total == before + Recv(c, at, before, BUFFERSIZE - before - 1) && Ends(c.stream, total)
  }

  /** Without NUL bytes the loop stops at the first chunk with a newline. */
  lemma {:induction false} StopsAtFirstNewline(c: Connection, i: nat, got: nat, total: nat)
    returns (before: nat, at: nat)
    requires i <= |c.arrived| && got <= |c.stream| && got < BUFFERSIZE && total == Taken(c, i, got)
    requires 0 !in c.stream && NEWLINE !in c.stream[..got]
    ensures got <= before && i <= at && StopsAt(c, before, at, total)
    decreases |c.arrived| - i
  {
    before, at := got, i;
    if i == |c.arrived| {
      assert total == got;
    } else {
      TakenStep(c, i, got);
      var n := Recv(c, i, got, BUFFERSIZE - got - 1);
      if n != 0 && NEWLINE !in c.stream[..got + n] {
        before, at := StopsAtFirstNewline(c, i + 1, got + n, total);
      }
    }
  }

  /** Each turn but the last takes at least one byte, so a server that keeps running for as many
      turns as the stream or the buffer has bytes has a reason to end the message. */
  lemma {:induction false} EndsByItself(c: Connection, i: nat, got: nat)
    requires i <= |c.arrived| && got <= |c.stream| && got < BUFFERSIZE && 0 !in c.stream
    requires BUFFERSIZE - got <= |c.arrived| - i || |c.stream| - got < |c.arrived| - i
    ensures Ends(c.stream, Taken(c, i, got))
    decreases |c.arrived| - i
  {
    TakenStep(c, i, got);
    var n := Recv(c, i, got, BUFFERSIZE - got - 1);
    if n != 0 && NEWLINE !in c.stream[..got + n] {
      EndsByItself(c, i + 1, got + n);
    }
  }

  lemma NewlineEndsLine(line: bytes, n: nat)
    requires IsLine(line) && n <= |line|
    ensures NEWLINE in line[..n] ==> n == |line|
  {
    assert n < |line| ==> line[..n] == line[..|line| - 1][..n];
  }

  /** A client that sends one line of at most 47999 bytes is read to the end of that line, however
      the network cuts it up. */
  lemma LineIsTakenWhole(c: Connection)
    requires IsLine(c.stream) && 0 !in c.stream && |c.stream| <= 47_999 && |c.stream| < |c.arrived|
    ensures Taken(c, 0, 0) == |c.stream|
  {
    EndsByItself(c, 0, 0);
    NewlineEndsLine(c.stream, Taken(c, 0, 0));
  }
}
