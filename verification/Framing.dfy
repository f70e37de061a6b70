/** Logs of self-delimiting frames: what any reader that stops at the first bad frame recovers. */
module Framing {
  import opened Bits
  import opened Results

  /** How values of `T` are printed as frames and read back. */
  datatype Format<!T> = Format(
    encode: T -> seq<byte>,
    decode: seq<byte> -> Option<(T, nat)>,
    valid: T -> bool)

  ghost predicate ReadsBack<T(!new)>(fmt: Format<T>, b: seq<byte>, x: T, n: nat) {
    fmt.valid(x) && 0 < n <= |b| && fmt.encode(x) == b[..n]
  }

  /** Printing then reading gives the value back whatever follows; what is read was printed that way. */
  ghost predicate Lawful<T(!new)>(fmt: Format<T>) {
    && (forall x, tail :: fmt.valid(x) ==>
          |fmt.encode(x)| > 0 && fmt.decode(fmt.encode(x) + tail) == Some((x, |fmt.encode(x)|)))
    && (forall b :: fmt.decode(b).Some? ==> ReadsBack(fmt, b, fmt.decode(b).value.0, fmt.decode(b).value.1))
  }

  lemma DecodeEncoded<T(!new)>(fmt: Format<T>, x: T, tail: seq<byte>)
    requires Lawful(fmt) && fmt.valid(x)
    ensures |fmt.encode(x)| > 0 && fmt.decode(fmt.encode(x) + tail) == Some((x, |fmt.encode(x)|))
  {}

  lemma EncodeDecoded<T(!new)>(fmt: Format<T>, b: seq<byte>)
    requires Lawful(fmt) && fmt.decode(b).Some?
    ensures ReadsBack(fmt, b, fmt.decode(b).value.0, fmt.decode(b).value.1)
  {}

  /** The frames read from the front of `data`, up to the first that does not decode. */
  function Frames<T>(fmt: Format<T>, data: seq<byte>): seq<T>
    decreases |data|
  {
    match fmt.decode(data)
    case None => []
    case Some((x, n)) => if 0 < n <= |data| then [x] + Frames(fmt, data[n..]) else []
  }

  /** The number of bytes those frames take. */
  function Consumed<T>(fmt: Format<T>, data: seq<byte>): (c: nat)
    ensures c <= |data|
    decreases |data|
  {
    match fmt.decode(data)
    case None => 0
    case Some((_, n)) => if 0 < n <= |data| then n + Consumed(fmt, data[n..]) else 0
  }

  function EncodeAll<T>(fmt: Format<T>, xs: seq<T>): seq<byte> {
    if |xs| == 0 then [] else fmt.encode(xs[0]) + EncodeAll(fmt, xs[1..])
  }

  ghost predicate AllValid<T(!new)>(fmt: Format<T>, xs: seq<T>) {
    forall x | x in xs :: fmt.valid(x)
  }

  /** How many of the frames `xs` end at or before byte `c`. */
  function Whole<T>(fmt: Format<T>, xs: seq<T>, c: nat): (j: nat)
    ensures j <= |xs|
    decreases |xs|
  {
    if |xs| == 0 || c < |fmt.encode(xs[0])| then 0
    else 1 + Whole(fmt, xs[1..], c - |fmt.encode(xs[0])|)
  }

  // ---------------------------------------------------------------- reading what was printed

  lemma {:induction false} FramesOfEncoded<T(!new)>(fmt: Format<T>, xs: seq<T>, tail: seq<byte>)
    requires Lawful(fmt) && AllValid(fmt, xs)
    ensures Frames(fmt, EncodeAll(fmt, xs) + tail) == xs + Frames(fmt, tail)
    ensures Consumed(fmt, EncodeAll(fmt, xs) + tail) == |EncodeAll(fmt, xs)| + Consumed(fmt, tail)
    decreases |xs|
  {
    hide Lawful;
    if |xs| == 0 {
      assert EncodeAll(fmt, xs) + tail == tail;
    } else {
      var e, rest := fmt.encode(xs[0]), EncodeAll(fmt, xs[1..]) + tail;
      FramesOfEncoded(fmt, xs[1..], tail);
      DecodeEncoded(fmt, xs[0], rest);
      assert EncodeAll(fmt, xs) + tail == e + rest;
      assert (e + rest)[|e|..] == rest;
    }
  }

  lemma {:induction false} EncodeAllAppends<T>(fmt: Format<T>, xs: seq<T>, ys: seq<T>)
    ensures EncodeAll(fmt, xs + ys) == EncodeAll(fmt, xs) + EncodeAll(fmt, ys)
    decreases |xs|
  {
    if |xs| == 0 {
      assert xs + ys == ys;
    } else {
      EncodeAllAppends(fmt, xs[1..], ys);
      assert (xs + ys)[1..] == xs[1..] + ys;
    }
  }

  lemma EncodeOne<T>(fmt: Format<T>, x: T)
    ensures EncodeAll(fmt, [x]) == fmt.encode(x)
  {
    assert EncodeAll(fmt, [x][1..]) == [];
  }

  // ---------------------------------------------------------------- printing what was read

  /** The frames read from any bytes are valid, and printing them gives the bytes consumed. */
  lemma {:induction false} EncodeFrames<T(!new)>(fmt: Format<T>, data: seq<byte>)
    requires Lawful(fmt)
    ensures AllValid(fmt, Frames(fmt, data))
    ensures EncodeAll(fmt, Frames(fmt, data)) == data[..Consumed(fmt, data)]
    ensures fmt.decode(data[Consumed(fmt, data)..]).None?
    decreases |data|
  {
    hide Lawful;
    if fmt.decode(data).Some? {
      var n := fmt.decode(data).value.1;
      EncodeDecoded(fmt, data);
      EncodeFrames(fmt, data[n..]);
      var m := Consumed(fmt, data[n..]);
      assert data[n..][m..] == data[n + m..];
      assert data[..n] + data[n..][..m] == data[..n + m];
      assert Frames(fmt, data)[1..] == Frames(fmt, data[n..]);
    } else {
      assert data[0..] == data;
    }
  }

  /** Reading from frame `j` on finds the remaining frames and stops at the same byte. */
  lemma {:induction false} FramesFromMiddle<T(!new)>(fmt: Format<T>, data: seq<byte>, j: nat)
    requires Lawful(fmt) && j <= |Frames(fmt, data)|
    ensures var start := |EncodeAll(fmt, Frames(fmt, data)[..j])|;
            start <= |data| && Frames(fmt, data[start..]) == Frames(fmt, data)[j..]
            && start + Consumed(fmt, data[start..]) == Consumed(fmt, data)
    decreases j
  {
    hide Lawful;
    var xs := Frames(fmt, data);
    if j == 0 {
      assert data[0..] == data;
    } else {
      EncodeDecoded(fmt, data);
      var n := fmt.decode(data).value.1;
      FramesFromMiddle(fmt, data[n..], j - 1);
      assert xs[..j][1..] == Frames(fmt, data[n..])[..j - 1];
      var start := |EncodeAll(fmt, Frames(fmt, data[n..])[..j - 1])|;
      assert data[n..][start..] == data[n + start..];
    }
  }

  lemma NothingToRead<T(!new)>(fmt: Format<T>)
    requires Lawful(fmt)
    ensures fmt.decode([]).None? && Frames(fmt, []) == [] && Consumed(fmt, []) == 0
  {
    if fmt.decode([]).Some? {
      EncodeDecoded(fmt, []);
    }
  }

  /** Cutting the unreadable end off changes nothing and leaves nothing further to cut. */
  lemma RecoveredIsClean<T(!new)>(fmt: Format<T>, data: seq<byte>)
    requires Lawful(fmt)
    ensures var kept := data[..Consumed(fmt, data)];
            Frames(fmt, kept) == Frames(fmt, data) && Consumed(fmt, kept) == |kept|
  {
    hide Lawful;
    EncodeFrames(fmt, data);
    NothingToRead(fmt);
    FramesOfEncoded(fmt, Frames(fmt, data), []);
    assert data[..Consumed(fmt, data)] + [] == data[..Consumed(fmt, data)];
    assert Frames(fmt, data) + [] == Frames(fmt, data);
  }

  /** A frame appended after recovering any damaged log is read back after exactly the old frames. */
  lemma AppendAfterRecovery<T(!new)>(fmt: Format<T>, data: seq<byte>, x: T)
    requires Lawful(fmt) && fmt.valid(x)
    ensures var log := data[..Consumed(fmt, data)] + fmt.encode(x);
            Frames(fmt, log) == Frames(fmt, data) + [x] && Consumed(fmt, log) == |log|
  {
    hide Lawful;
    var xs := Frames(fmt, data);
    EncodeFrames(fmt, data);
    NothingToRead(fmt);
    EncodeAllAppends(fmt, xs, [x]);
    EncodeOne(fmt, x);
    FramesOfEncoded(fmt, xs + [x], []);
    assert EncodeAll(fmt, xs + [x]) + [] == EncodeAll(fmt, xs + [x]);
    assert xs + [x] + [] == xs + [x];
  }

  // ---------------------------------------------------------------- crashes

  /** A frame cut short is never taken for a frame. */
  lemma CutFrameUnreadable<T(!new)>(fmt: Format<T>, x: T, c: nat)
    requires Lawful(fmt) && fmt.valid(x) && c < |fmt.encode(x)|
    ensures fmt.decode(fmt.encode(x)[..c]).None?
  {
    hide Lawful;
    var e := fmt.encode(x);
    DecodeEncoded(fmt, x, []);
    assert e + [] == e;
    if fmt.decode(e[..c]).Some? {
      var (y, n) := fmt.decode(e[..c]).value;
      EncodeDecoded(fmt, e[..c]);
      assert fmt.encode(y) + e[n..] == e;
      DecodeEncoded(fmt, y, e[n..]);
    }
  }

  /** A log cut at byte `c` is read as exactly the frames that lie wholly before `c`. */
  lemma {:induction false} CutFrames<T(!new)>(fmt: Format<T>, xs: seq<T>, c: nat)
    requires Lawful(fmt) && AllValid(fmt, xs) && c <= |EncodeAll(fmt, xs)|
    ensures var j := Whole(fmt, xs, c);
            Frames(fmt, EncodeAll(fmt, xs)[..c]) == xs[..j] &&
            Consumed(fmt, EncodeAll(fmt, xs)[..c]) == |EncodeAll(fmt, xs[..j])|
    decreases |xs|
  {
    hide Lawful;
    if |xs| == 0 {
      NothingToRead(fmt);
    } else {
      var e, rest := fmt.encode(xs[0]), EncodeAll(fmt, xs[1..]);
      if c < |e| {
        CutFrameUnreadable(fmt, xs[0], c);
        assert (e + rest)[..c] == e[..c];
      } else {
        var j := Whole(fmt, xs[1..], c - |e|);
        CutFrames(fmt, xs[1..], c - |e|);
        DecodeEncoded(fmt, xs[0], rest[..c - |e|]);
        assert (e + rest)[..c] == e + rest[..c - |e|];
        assert (e + rest[..c - |e|])[|e|..] == rest[..c - |e|];
        assert xs[..j + 1] == [xs[0]] + xs[1..][..j];
        assert xs[..j + 1][1..] == xs[1..][..j];
      }
    }
  }

  /** `Whole` counts the frames before the cut: those fit, one more does not. */
  lemma {:induction false} WholeIsLargest<T(!new)>(fmt: Format<T>, xs: seq<T>, c: nat)
    ensures var j := Whole(fmt, xs, c);
            |EncodeAll(fmt, xs[..j])| <= c && (j < |xs| ==> c < |EncodeAll(fmt, xs[..j + 1])|)
    decreases |xs|
  {
    if |xs| == 0 {
    } else {
      var e := fmt.encode(xs[0]);
      if c < |e| {
        assert xs[..1][1..] == [];
        assert EncodeAll(fmt, xs[..1]) == e + [];
      } else {
        var j := Whole(fmt, xs[1..], c - |e|);
        WholeIsLargest(fmt, xs[1..], c - |e|);
        assert xs[..j + 1][1..] == xs[1..][..j];
        if j + 1 < |xs| {
          assert xs[..j + 2][1..] == xs[1..][..j + 1];
        }
      }
    }
  }
}
