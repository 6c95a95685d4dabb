/** Byte strings cut into lines. */
module Lines {
  import opened Machine

  type bytes = seq<byte>

  /** The pieces laid end to end. */
  function Flatten(pieces: seq<bytes>): bytes
  {
    if pieces == [] then [] else pieces[0] + Flatten(pieces[1..])
  }

  /** A complete line: its only newline is its last byte. */
  predicate IsLine(s: bytes)
  {
    s != [] && s[|s| - 1] == NEWLINE && NEWLINE !in s[..|s| - 1]
  }

  /** A newline with bytes after it. */
  predicate HasInnerNewline(s: bytes)
  {
    s != [] && NEWLINE in s[..|s| - 1]
  }

  /** Index of the first newline, or -1. */
  function FirstNewline(s: bytes): (r: int)
    ensures r == -1 <==> NEWLINE !in s
    ensures r != -1 ==> 0 <= r < |s| && s[r] == NEWLINE && NEWLINE !in s[..r]
  {
    if s == [] then -1
    else if s[0] == NEWLINE then 0
    else var r := FirstNewline(s[1..]); if r == -1 then -1 else r + 1
  }

  /** The reference split: the complete lines of a stream ... */
  function CompleteLines(s: bytes): (lines: seq<bytes>)
    ensures forall i :: 0 <= i < |lines| ==> IsLine(lines[i])
    decreases |s|
  {
    var k := FirstNewline(s);
    if k == -1 then [] else
      assert s[..k + 1][..k] == s[..k];
      [s[..k + 1]] + CompleteLines(s[k + 1..])
  }

  /** ... and what follows its last newline. */
  function Tail(s: bytes): (rest: bytes)
    ensures NEWLINE !in rest
    decreases |s|
  {
    var k := FirstNewline(s);
    if k == -1 then s else Tail(s[k + 1..])
  }

  lemma {:induction false} FlattenConcat(a: seq<bytes>, b: seq<bytes>)
    ensures Flatten(a + b) == Flatten(a) + Flatten(b)
  {
    if a == [] {
      assert a + b == b;
    } else {
      FlattenConcat(a[1..], b);
      assert a + b == [a[0]] + (a[1..] + b);
      assert a[0] + (Flatten(a[1..]) + Flatten(b)) == a[0] + Flatten(a[1..]) + Flatten(b);
    }
  }

  lemma FlattenSnoc(a: seq<bytes>, s: bytes)
    ensures Flatten(a + [s]) == Flatten(a) + s
  {
    FlattenConcat(a, [s]);
    assert Flatten([s]) == s + Flatten([]);
  }

  lemma FlattenUpTo(pieces: seq<bytes>, j: nat)
    requires j < |pieces|
    ensures Flatten(pieces[..j + 1]) == Flatten(pieces[..j]) + pieces[j]
  {
    FlattenSnoc(pieces[..j], pieces[j]);
    assert pieces[..j + 1] == pieces[..j] + [pieces[j]];
  }

  /** Piece j starts where the pieces before it end. */
  lemma FlattenAround(pieces: seq<bytes>, j: nat)
    requires j < |pieces|
    ensures Flatten(pieces[..j + 1]) == Flatten(pieces[..j]) + pieces[j]
    ensures Flatten(pieces) == Flatten(pieces[..j]) + pieces[j] + Flatten(pieces[j + 1..])
  {
    FlattenUpTo(pieces, j);
    FlattenPrefix(pieces, j + 1);
  }

  /** A slice of a piece is a slice of the whole. */
  lemma FlattenSlice(pieces: seq<bytes>, j: nat, off: nat, n: nat)
    requires j < |pieces| && off + n <= |pieces[j]|
    ensures var pos := |Flatten(pieces[..j])| + off;
            pos + n <= |Flatten(pieces)| && Flatten(pieces)[pos..pos + n] == pieces[j][off..off + n]
  {
    FlattenAround(pieces, j);
    SliceInMiddle(Flatten(pieces[..j]), pieces[j], Flatten(pieces[j + 1..]), off, n);
  }

  lemma SliceInMiddle(a: bytes, b: bytes, c: bytes, off: nat, n: nat)
    requires off + n <= |b|
    ensures (a + b + c)[|a| + off..|a| + off + n] == b[off..off + n]
  {
  }

  lemma FlattenPrefix(pieces: seq<bytes>, j: nat)
    requires j <= |pieces|
    ensures Flatten(pieces) == Flatten(pieces[..j]) + Flatten(pieces[j..])
  {
    assert pieces[..j] + pieces[j..] == pieces;
    FlattenConcat(pieces[..j], pieces[j..]);
  }

  lemma {:induction false} FlattenOfEmpties(pieces: seq<bytes>)
    requires forall i :: 0 <= i < |pieces| ==> pieces[i] == []
    ensures Flatten(pieces) == []
  {
    if pieces == [] {
    } else {
      FlattenOfEmpties(pieces[1..]);
    }
  }

  /** Ten pieces of at most `bound` bytes hold at most 10 * bound bytes. */
  lemma {:induction false} FlattenBound(pieces: seq<bytes>, bound: nat)
    requires forall i :: 0 <= i < |pieces| ==> |pieces[i]| <= bound
    ensures |Flatten(pieces)| <= |pieces| * bound
  {
    if pieces == [] {
    } else {
      FlattenBound(pieces[1..], bound);
      assert |pieces| * bound == bound + |pieces[1..]| * bound;
    }
  }

  lemma {:induction false} FirstNewlineIs(s: bytes, k: nat)
    requires k < |s| && s[k] == NEWLINE && NEWLINE !in s[..k]
    ensures FirstNewline(s) == k
  {
    if k == 0 {
    } else {
      assert s[0] == s[..k][0];
      assert s[1..][..k - 1] == s[..k][1..];
      FirstNewlineIs(s[1..], k - 1);
    }
  }

  /** A line begins with its own bytes up to the first newline, so it is recognised in front
      of anything. */
  lemma LineIsFirst(line: bytes, rest: bytes)
    requires IsLine(line)
    ensures FirstNewline(line + rest) == |line| - 1
    ensures (line + rest)[..|line|] == line && (line + rest)[|line|..] == rest
  {
    assert (line + rest)[..|line| - 1] == line[..|line| - 1];
    FirstNewlineIs(line + rest, |line| - 1);
  }

  /** The reference split is the only way to write a stream as lines and a newline-free rest. */
  lemma {:induction false} SplitIsUnique(lines: seq<bytes>, rest: bytes)
    requires forall i :: 0 <= i < |lines| ==> IsLine(lines[i])
    requires NEWLINE !in rest
    ensures CompleteLines(Flatten(lines) + rest) == lines
    ensures Tail(Flatten(lines) + rest) == rest
  {
    if lines == [] {
      assert Flatten(lines) + rest == rest;
    } else {
      var after := Flatten(lines[1..]) + rest;
      assert Flatten(lines) + rest == lines[0] + after;
      LineIsFirst(lines[0], after);
      SplitIsUnique(lines[1..], rest);
    }
  }

  /** The split of a stream with a newline: its first line, then the split of the rest. */
  lemma SplitStep(s: bytes, line: bytes, rest: bytes)
    requires FirstNewline(s) != -1
    requires line == s[..FirstNewline(s) + 1] && rest == s[FirstNewline(s) + 1..]
    ensures s == line + rest
    ensures Flatten(CompleteLines(s)) == line + Flatten(CompleteLines(rest))
    ensures Tail(s) == Tail(rest)
  {
    var lines := CompleteLines(s);
    assert lines == [line] + CompleteLines(rest);
    assert lines[0] == line && lines[1..] == CompleteLines(rest);
  }

  /** The split loses nothing. */
  lemma {:induction false} SplitIsExact(s: bytes)
    ensures Flatten(CompleteLines(s)) + Tail(s) == s
    decreases |s|
  {
    var k := FirstNewline(s);
    if k != -1 {
      var line, rest := s[..k + 1], s[k + 1..];
      SplitStep(s, line, rest);
      SplitIsExact(rest);
      Associate(line, Flatten(CompleteLines(rest)), Tail(rest));
    }
  }

  lemma Associate(a: bytes, b: bytes, c: bytes)
    ensures (a + b) + c == a + (b + c)
  {
  }
}
