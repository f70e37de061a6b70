/** Counters of 1 to 8 bits packed into bytes refine a plain array of numbers
    (internal/counting/counting.go:190-229). */
module PackedCounters {
  import opened Bits

  /** The number held by counter `p`. */
  function Counter(data: seq<byte>, width: nat, p: nat): (v: nat)
    ensures v < Pow2(width)
  {
    ReadBits(data, p * width, width)
  }

  /** setCounter: only the low `width` bits of `v` are stored. */
  function SetCounter(data: seq<byte>, width: nat, p: nat, v: nat): (r: seq<byte>)
    ensures |r| == |data|
  {
    WriteBits(data, p * width, width, v)
  }

  function Counters(data: seq<byte>, m: nat, width: nat): (c: seq<nat>)
    ensures |c| == m
    ensures forall p | 0 <= p < m :: c[p] == Counter(data, width, p)
  {
    seq(m, p requires 0 <= p < m => Counter(data, width, p))
  }

  /** `data` has room for `m` counters. */
  predicate Fits(data: seq<byte>, m: nat, width: nat) {
    m * width <= 8 * |data|
  }

  ghost predicate SamePadding(a: seq<byte>, b: seq<byte>, m: nat, width: nat) {
    forall q: nat | m * width <= q :: GetBit(a, q) == GetBit(b, q)
  }

  // ---------------------------------------------------------------- fields do not overlap

  lemma FieldInside(p: nat, m: nat, width: nat)
    requires p < m
    ensures p * width + width <= m * width
  {
    MulOrder(p + 1, m, width);
  }

  lemma FieldsApart(p: nat, q: nat, width: nat)
    requires p != q
    ensures p * width + width <= q * width || q * width + width <= p * width
  {
    if p < q {
      FieldInside(p, q, width);
    } else {
      FieldInside(q, p, width);
    }
  }

  /** Writing `v` at `p` makes `p` read back `v mod 2^width` and leaves every other counter alone. */
  lemma CounterAfterSet(data: seq<byte>, m: nat, width: nat, p: nat, v: nat, q: nat)
    requires Fits(data, m, width) && p < m && q < m
    ensures Counter(SetCounter(data, width, p, v), width, q) ==
            if q == p then v % Pow2(width) else Counter(data, width, q)
  {
    if p == q {
      FieldInside(p, m, width);
      ReadWriteBits(data, p * width, width, v);
    } else {
      FieldsApart(p, q, width);
      forall i: nat | q * width <= i < q * width + width
        ensures GetBit(SetCounter(data, width, p, v), i) == GetBit(data, i)
      {
        GetWriteBits(data, p * width, width, v, i);
      }
      ReadBitsSame(SetCounter(data, width, p, v), data, q * width, width);
    }
  }

  /** ... and every padding bit. */
  lemma PaddingAfterSet(data: seq<byte>, m: nat, width: nat, p: nat, v: nat)
    requires p < m
    ensures SamePadding(SetCounter(data, width, p, v), data, m, width)
  {
    FieldInside(p, m, width);
    forall q: nat | m * width <= q ensures GetBit(SetCounter(data, width, p, v), q) == GetBit(data, q) {
      GetWriteBits(data, p * width, width, v, q);
    }
  }

  /** The packed array refines the plain one: a packed write is a write of `v mod 2^width`. */
  lemma SetRefines(data: seq<byte>, m: nat, width: nat, p: nat, v: nat)
    requires Fits(data, m, width) && p < m
    ensures Counters(SetCounter(data, width, p, v), m, width) == Counters(data, m, width)[p := v % Pow2(width)]
    ensures SamePadding(SetCounter(data, width, p, v), data, m, width)
  {
    forall q | 0 <= q < m
      ensures Counter(SetCounter(data, width, p, v), width, q) ==
              if q == p then v % Pow2(width) else Counter(data, width, q)
    {
      CounterAfterSet(data, m, width, p, v, q);
    }
    PaddingAfterSet(data, m, width, p, v);
  }

  lemma GetFieldBit(a: seq<byte>, b: seq<byte>, width: nat, p: nat, i: nat)
    requires i < width && Counter(a, width, p) == Counter(b, width, p)
    ensures GetBit(a, p * width + i) == GetBit(b, p * width + i)
  {
    hide NatBit, ReadBits, GetBit;
    NatBitReadBits(a, p * width, width, i);
    NatBitReadBits(b, p * width, width, i);
  }

  /** The counters and the padding determine every byte. */
  lemma PackedExtensional(a: seq<byte>, b: seq<byte>, m: nat, width: nat)
    requires |a| == |b| && width > 0
    requires Counters(a, m, width) == Counters(b, m, width) && SamePadding(a, b, m, width)
    ensures a == b
  {
    forall q: nat | q < 8 * |a| ensures GetBit(a, q) == GetBit(b, q) {
      if q < m * width {
        var p, i := q / width, q % width;
        assert q == p * width + i;
        if p >= m {
          MulOrder(m, p, width);
        }
        assert Counters(a, m, width)[p] == Counters(b, m, width)[p];
        GetFieldBit(a, b, width, p, i);
      }
    }
    BitsExtensional(a, b);
  }

  lemma {:induction false} ZeroField(n: nat, off: nat, w: nat)
    ensures ReadBits(Zeros(n), off, w) == 0
    decreases w
  {
    if w == 0 {
    } else {
      ZerosClear(n, off);
      ZeroField(n, off + 1, w - 1);
    }
  }

  /** Counter `p` is a run of `width` binary digits of the data read as one little-endian number. */
  lemma CounterIsDigits(data: seq<byte>, width: nat, p: nat)
    ensures Counter(data, width, p) == LittleEndian(data) / Pow2(p * width) % Pow2(width)
  {
    FieldIsDigits(data, p * width, width);
  }

  lemma ZeroCounters(n: nat, m: nat, width: nat)
    ensures Counters(Zeros(n), m, width) == seq(m, _ => 0)
  {
    forall p | 0 <= p < m ensures Counter(Zeros(n), width, p) == 0 {
      ZeroField(n, p * width, width);
    }
  }

  // ---------------------------------------------------------------- the loops, one bit further

  lemma {:induction false} ReadOneMore(s: seq<byte>, off: nat, n: nat)
    ensures ReadBits(s, off, n + 1) == ReadBits(s, off, n) + if GetBit(s, off + n) then Pow2(n) else 0
    decreases n
  {
    hide GetBit;
    if n == 0 {
    } else {
      ReadOneMore(s, off + 1, n - 1);
    }
  }

  lemma {:induction false} WriteOneMore(s: seq<byte>, off: nat, n: nat, v: nat)
    ensures WriteBits(s, off, n + 1, v) == PutBit(WriteBits(s, off, n, v), off + n, NatBit(v, n))
    decreases n
  {
    hide PutBit;
    if n > 0 {
      WriteOneMore(PutBit(s, off, v % 2 == 1), off + 1, n - 1, v / 2);
    } else {
      assert WriteBits(s, off, 1, v) == WriteBits(PutBit(s, off, v % 2 == 1), off + 1, 0, v / 2);
    }
  }

  lemma {:induction false} WriteBeyondEnd(s: seq<byte>, off: nat, n: nat, v: nat, i: nat)
    requires i <= n && (off + i) / 8 >= |s|
    ensures WriteBits(s, off, n, v) == WriteBits(s, off, i, v)
    decreases n
  {
    if i == n {
    } else {
      WriteOneMore(s, off, n - 1, v);
      WriteBeyondEnd(s, off, n - 1, v, i);
    }
  }
}
